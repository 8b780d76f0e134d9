/** What a program sees of the system calls, in the numbers of the original: addresses, file types,
    descriptors and bytes. */
module Calls {
  import opened Bytes
  import opened CommandLine
  import opened FileSystem
  import opened Machine
  import opened Paging
  import opened Sizes
  import opened Stores
  import Terminal

  // ------------------------------------------------------------- memory as a program sees it

  /** The running program finds byte b at address va. */
  ghost predicate SeesByte(m: Machine, va: int, b: byte)
  {
    var target := Meaning(m.space, va);
    target.Phys? && target.user && target.addr in m.mem && m.mem[target.addr] == b
  }

  /** The running program finds bytes from address va on. */
  ghost predicate Sees(m: Machine, va: int, bytes: seq<byte>)
  {
    forall i :: 0 <= i < |bytes| ==> SeesByte(m, va + i, bytes[i])
  }

  /** n bytes from buf on lie in the 4MB that a program is loaded into. */
  predicate InProgram(buf: int, n: int)
  {
    0x800_0000 <= buf && 0 <= n && buf + n <= 0x840_0000
  }

  /** Where an address of the running program is in physical memory: the programs lie one behind the
      other from 8MB on. */
  function FrameOf(m: Machine, va: int): int
  {
    0x80_0000 + 0x40_0000 * (|m.procs| - 1) + (va - 0x800_0000)
  }

  lemma {:induction false} ProgramIsMapped(m: Machine, va: int)
    requires IsMachine(m) && InProgram(va, 1)
    ensures Meaning(m.space, va) == Phys(FrameOf(m, va), true) && FrameOf(m, va) in m.mem
  {
  }

  /** What the kernel stores into a buffer of the running program arrives there, and nothing else
      changes. */
  lemma {:induction false} BufferIsFilled(m: Machine, buf: int, bytes: seq<byte>)
    requires IsMachine(m) && InProgram(buf, |bytes|)
    ensures var m' := Filled(m, buf, bytes);
            && AllReached(m.space, buf, |bytes|) && m'.procs == m.procs && m'.space == m.space
            && (forall a :: a in m'.mem <==> a in m.mem)
            && (forall a :: a in m.mem && !(FrameOf(m, buf) <= a < FrameOf(m, buf) + |bytes|) ==> m'.mem[a] == m.mem[a])
            && Sees(m', buf, bytes)
  {
    hide IsMachine, Filled, Stuffed, Reached, FrameOf, Sees;
    FilledIs(m, buf, bytes);
    BufferIsReached(m, buf, bytes);
    OnlyBufferIsWritten(m, buf, bytes);
    BufferIsWritten(m, Filled(m, buf, bytes), buf, bytes);
  }

  lemma {:induction false} FilledIs(m: Machine, buf: int, bytes: seq<byte>)
    ensures Filled(m, buf, bytes).procs == m.procs && Filled(m, buf, bytes).space == m.space
  {
  }

  lemma {:induction false} OnlyBufferIsWritten(m: Machine, buf: int, bytes: seq<byte>)
    requires IsMachine(m) && InProgram(buf, |bytes|)
    ensures var mem' := Written(m.mem, m.space, buf, bytes);
            && (forall a :: a in mem' <==> a in m.mem)
            && (forall a :: a in m.mem && !(FrameOf(m, buf) <= a < FrameOf(m, buf) + |bytes|) ==> mem'[a] == m.mem[a])
  {
    ProgramIsHit(m, buf, |bytes|);
    WrittenIsOutside(m.mem, m.space, buf, bytes);
    hide Written, At, Hits, FrameOf;
    forall a | a in m.mem && !(FrameOf(m, buf) <= a < FrameOf(m, buf) + |bytes|)
      ensures Written(m.mem, m.space, buf, bytes)[a] == m.mem[a]
    {
      WrittenElsewhere(m.mem, m.space, buf, bytes, a);
    }
  }

  lemma {:induction false} BufferIsWritten(m: Machine, m': Machine, buf: int, bytes: seq<byte>)
    requires IsMachine(m) && InProgram(buf, |bytes|)
    requires m'.mem == Written(m.mem, m.space, buf, bytes) && m'.space == m.space
    ensures Sees(m', buf, bytes)
  {
    ProgramIsHit(m, buf, |bytes|);
    hide Written, At, Hits, FrameOf, SeesByte, IsMachine;
    forall i | 0 <= i < |bytes|
      ensures SeesByte(m', buf + i, bytes[i])
    {
      WrittenOnce(m.mem, m.space, buf, bytes, FrameOf(m, buf) + i, i);
      SeesMapped(m, m', buf, i, bytes[i]);
    }
  }

  /** The i-th byte stored into a buffer hits the i-th byte of its frame. */
  lemma {:induction false} ProgramIsHit(m: Machine, buf: int, n: int)
    requires IsMachine(m) && InProgram(buf, n)
    ensures forall i, a :: 0 <= i < n ==> (Hits(m.space, At(buf, i), a) <==> a == FrameOf(m, buf) + i)
  {
    forall i | 0 <= i < n
      ensures At(buf, i) == buf + i && Meaning(m.space, At(buf, i)) == Phys(FrameOf(m, buf) + i, true)
    {
      ProgramIsMapped(m, buf + i);
    }
    hide Meaning, At, FrameOf;
  }

  lemma {:induction false} BufferIsReached(m: Machine, buf: int, bytes: seq<byte>)
    requires IsMachine(m) && InProgram(buf, |bytes|)
    ensures AllReached(m.space, buf, |bytes|) && Filled(m, buf, bytes).mem == Written(m.mem, m.space, buf, bytes)
  {
    forall i | 0 <= i < |bytes|
      ensures Meaning(m.space, At(buf, i)).Phys?
    {
      ProgramIsMapped(m, buf + i);
    }
    hide Meaning, At, Reached;
    ReachedIs(m.space, buf, |bytes|, |bytes|);
    assert bytes[..|bytes|] == bytes;
  }

  lemma {:induction false} SeesMapped(m: Machine, m': Machine, buf: int, i: int, b: byte)
    requires IsMachine(m) && 0 <= i && InProgram(buf, i + 1) && m'.space == m.space
    requires FrameOf(m, buf) + i in m'.mem && m'.mem[FrameOf(m, buf) + i] == b
    ensures SeesByte(m', buf + i, b)
  {
    ProgramIsMapped(m, buf + i);
  }

  /** A buffer that runs over the end of the program is filled up to there, unless the screen is mapped
      behind it. */
  lemma {:induction false} BufferRunsOut(m: Machine, buf: int, bytes: seq<byte>, k: nat)
    requires IsMachine(m) && !m.space.vidmap && InProgram(buf, k) && buf + k == 0x840_0000 && k < |bytes|
    ensures Filled(m, buf, bytes) == Filled(m, buf, bytes[..k]) && !AllReached(m.space, buf, |bytes|)
    ensures Sees(Filled(m, buf, bytes), buf, bytes[..k])
  {
    BufferIsFilled(m, buf, bytes[..k]);
    assert Meaning(m.space, At(buf, k)).Fault?;
    forall i | 0 <= i < k
      ensures Meaning(m.space, At(buf, i)).Phys?
    {
      ProgramIsMapped(m, buf + i);
    }
    hide Meaning, At, Reached, Sees, Written, IsMachine, InProgram;
    ReachedIs(m.space, buf, |bytes|, k);
    assert bytes[..k][..k] == bytes[..k];
  }

  // ------------------------------------------------------------- stores of the program

  /** A store into the program's own 4MB is seen there and changes nothing else. */
  lemma {:induction false} StoreIsSeen(fs: Image, m: Machine, va: int, b: byte)
    requires IsSystem(fs) && IsMachine(m) && InProgram(va, 1)
    ensures var m' := Step(fs, m, Store(va, b));
            && SeesByte(m', va, b) && m' == m.(mem := m'.mem) && (forall a :: a in m'.mem <==> a in m.mem)
            && forall a :: a in m.mem && a != FrameOf(m, va) ==> m'.mem[a] == m.mem[a]
  {
    ProgramIsMapped(m, va);
  }

  /** A store below the program, or behind the two pages that follow it, does nothing: neither the
      kernel nor the screen can be reached from there. */
  lemma {:induction false} StoreElsewhereFaults(fs: Image, m: Machine, va: int, b: byte)
    requires IsSystem(fs) && IsMachine(m) && (va < 0x800_0000 || va >= 0x840_2000)
    ensures Step(fs, m, Store(va, b)) == m
  {
  }

  // ------------------------------------------------------------- getargs

  /** getargs with room delivers the running process's argument and one NUL, for every buffer and
      size; the size counts as unsigned.  Without room, or a buffer, it fails. */
  lemma {:induction false} ArgumentIsDelivered(m: Machine, buf: int, n: int)
    requires IsMachine(m) && -0x8000_0000 <= n < 0x8000_0000
    ensures ArgResult(m, buf, n)
            == if buf != 0 && (n < 0 || n >= |Running(m).arg|) then (0, Running(m).arg + [0]) else (-1, [])
  {
    assert n % WORD32 == if n < 0 then n + WORD32 else n;
  }

  /** And the program finds both in its buffer. */
  lemma {:induction false} ArgumentIsSeen(fs: Image, m: Machine, buf: int, n: int)
    requires IsSystem(fs) && IsMachine(m) && |Running(m).arg| <= n < 0x8000_0000
    requires InProgram(buf, |Running(m).arg| + 1)
    ensures Sees(Step(fs, m, GetArgs(buf, n)), buf, Running(m).arg + [0])
  {
    ArgumentIsDelivered(m, buf, n);
    BufferIsFilled(m, buf, Running(m).arg + [0]);
    hide Filled, Sees, IsMachine, IsSystem;
  }

  /** A program that was started by a command line finds the second word of that line, whatever its
      children have done before it asks. */
  lemma {:induction false} CommandArgumentIsSeen(fs: Image, m: Machine, cmd: seq<byte>, frame: Frame, m1: Machine,
                                                 es: seq<Event>, m2: Machine, buf: int, n: int)
    requires Boots(fs) && IsMachine(m) && Fits(cmd) && m1 == Executed(fs, m, cmd, frame) && |m1.procs| == |m.procs| + 1
    requires IsMachine(m1) && AllHarmless(fs, m1, es) && Suspended(fs, m1, es, |m.procs| - 1)
    requires m2 == Run(fs, m1, es) && |m2.procs| == |m.procs| + 1
    requires |SecondToken(cmd)| <= n < 0x8000_0000 && InProgram(buf, |SecondToken(cmd)| + 1)
    ensures ArgResult(m2, buf, n) == (0, SecondToken(cmd) + [0])
    ensures Sees(Step(fs, m2, GetArgs(buf, n)), buf, SecondToken(cmd) + [0])
  {
    hide Executed, Run, AllHarmless, Suspended, Halted, Sees;
    ExecuteHaltBrackets(fs, m, cmd, frame, m1, es, m2, frame);
    ArgumentIsDelivered(m2, buf, n);
    ArgumentIsSeen(fs, m2, buf, n);
  }

  // ------------------------------------------------------------- close

  /** Two machines are the same but for descriptor fd of the running process. */
  ghost predicate OnlyDescriptor(m: Machine, m': Machine, fd: int)
  {
    var k := |m.procs| - 1;
    && m'.mem == m.mem && m'.space == m.space && |m'.procs| == |m.procs| > 0 && m'.procs[..k] == m.procs[..k]
    && m'.procs[k].frame == m.procs[k].frame && m'.procs[k].arg == m.procs[k].arg
    && |m'.procs[k].slots| == |m.procs[k].slots|
    && forall g :: 0 <= g < |m.procs[k].slots| && g != fd - 2 ==> m'.procs[k].slots[g] == m.procs[k].slots[g]
  }

  /** After a close, a descriptor from 2 to 7 is closed, and every other descriptor, process, page and
      byte is as before. */
  lemma {:induction false} CloseCloses(fs: Image, m: Machine, fd: int)
    requires IsSystem(fs) && IsMachine(m) && 2 <= fd < 8
    ensures var m' := Step(fs, m, Close(fd));
            IsMachine(m') && Running(m').slots[fd - 2] == Closed && !IsOpen(m', fd) && OnlyDescriptor(m, m', fd)
  {
    CloseIsLocal(m, fd);
    LocalKeepsMachine(m, AfterClose(m, fd));
  }

  /** Closing anything else changes nothing: the terminal, numbers out of range, closed descriptors. */
  lemma {:induction false} CloseElsewhere(fs: Image, m: Machine, fd: int)
    requires IsSystem(fs) && IsMachine(m) && (fd < 2 || fd >= 8 || Running(m).slots[fd - 2] == Closed)
    ensures Step(fs, m, Close(fd)) == m
  {
  }

  /** A closed descriptor is free again: the next open returns it or a lower one. */
  lemma {:induction false} ClosedIsReused(fs: Image, m: Machine, fd: int, name: seq<byte>)
    requires IsSystem(fs) && IsMachine(m) && 2 <= fd < 8
    requires name != [] && Lookup(fs.dentries, name) < MAX_DENTRIES
    ensures 2 <= OpenResult(fs, Step(fs, m, Close(fd)), name) <= fd
  {
    CloseCloses(fs, m, fd);
  }

  // ------------------------------------------------------------- open and read

  /** Entry k is the first one with a name. */
  predicate IsFirst(fs: Image, name: seq<byte>, k: nat)
  {
    && k < |fs.dentries| && |name| <= 32 && NameOf(fs.dentries[k]) == name
    && forall i :: 0 <= i < k ==> NameOf(fs.dentries[i]) != name
  }

  lemma {:induction false} FirstIsFound(fs: Image, name: seq<byte>, k: nat)
    requires IsFirst(fs, name, k)
    ensures Lookup(fs.dentries, name) == k
  {
    LookupIs(fs.dentries, name, k);
  }

  /** A successful open opens the first entry of that name at position 0, as the type number of the
      entry says, and changes nothing else. */
  lemma {:induction false} OpenOpens(fs: Image, m: Machine, name: seq<byte>, k: nat)
    requires IsSystem(fs) && IsMachine(m) && IsFirst(fs, name, k) && OpenResult(fs, m, name) != -1
    ensures var m', fd, entry := Step(fs, m, Open(name)), OpenResult(fs, m, name), fs.dentries[k];
            && IsMachine(m') && 2 <= fd < 8 && Running(m).slots[fd - 2] == Closed && OnlyDescriptor(m, m', fd)
            && var s := Running(m').slots[fd - 2];
               && (entry.fileType == 2 ==> s == Opened(FileKind, entry.inode, 0))
               && (entry.fileType == 1 ==> s.Opened? && s.kind == DirKind && s.pos == 0)
               && (entry.fileType != 1 && entry.fileType != 2 ==> s.Opened? && s.kind == RtcKind)
  {
    FirstIsFound(fs, name, k);
    OpenIsLocal(fs, m, name);
    LocalKeepsMachine(m, AfterOpen(fs, m, name));
  }

  /** An open fails exactly for the empty name, a name that no entry has, or six open descriptors. */
  lemma {:induction false} OpenFailsExactly(fs: Image, m: Machine, name: seq<byte>)
    requires IsSystem(fs) && IsMachine(m) && |name| <= 32
    ensures OpenResult(fs, m, name) == -1
            <==> || name == [] || (forall k :: 0 <= k < |fs.dentries| ==> NameOf(fs.dentries[k]) != name)
                 || (forall j :: 0 <= j < 6 ==> Running(m).slots[j] != Closed)
  {
    hide NameOf;
    var k, j := Lookup(fs.dentries, name), LowestClosed(Running(m).slots);
    assert k < |fs.dentries| ==> NameOf(fs.dentries[k]) == name;
    assert j < 6 ==> Running(m).slots[j] == Closed;
  }

  /** A failed open changes nothing. */
  lemma {:induction false} FailedOpen(fs: Image, m: Machine, name: seq<byte>)
    requires IsSystem(fs) && IsMachine(m) && OpenResult(fs, m, name) == -1
    ensures Step(fs, m, Open(name)) == m
  {
  }

  /** A read into the program's memory through an open descriptor. */
  predicate IsReadOf(e: Event, fd: int)
  {
    && e.Read? && e.fd == fd && IsEvent(e)
    && InProgram(e.buf, if e.n % WORD32 < 32 then 32 else e.n % WORD32)
  }

  predicate AreReadsOf(es: seq<Event>, fd: int)
    ensures AreReadsOf(es, fd) ==> AllReads(es)
  {
    forall i :: 0 <= i < |es| ==> IsReadOf(es[i], fd)
  }

  /** What one read delivers, as a count and as bytes. */
  ghost function Result(fs: Image, m: Machine, e: Event): (int, seq<byte>)
    requires IsSystem(fs) && IsMachine(m) && e.Read? && IsEvent(e)
  {
    ReadResult(fs, m, e.fd, e.buf, e.n, e.keys)
  }

  /** One read: its bytes arrive in the buffer, and only its own descriptor moves. */
  lemma {:induction false} ReadMoves(fs: Image, m: Machine, e: Event, fd: int, s: Slot)
    requires IsSystem(fs) && IsMachine(m) && IsReadOf(e, fd) && IsOpen(m, fd) && s == Running(m).slots[fd - 2]
    ensures var m', bytes := Step(fs, m, e), Result(fs, m, e).1;
            && Harmless(fs, m, e) && IsMachine(m') && Sees(m', e.buf, bytes)
            && Running(m').slots == Running(m).slots[fd - 2 := s.(pos := PosAfterRead(fs, s, e.n))]
            && m'.procs[..|m.procs| - 1] == m.procs[..|m.procs| - 1] && |m'.procs| == |m.procs| && m'.space == m.space
  {
    hide PosAfterRead, ReadResult, SparesKernel, Filled, Sees, LocalChange;
    var bytes := Result(fs, m, e).1;
    ReadIsBounded(fs, m, fd, e.buf, e.n, e.keys);
    RangeSparesKernel(e.buf, |bytes|);
    BufferIsFilled(m, e.buf, bytes);
    ReadIsLocal(fs, m, fd, e.buf, e.n, e.keys);
    LocalKeepsMachine(m, Step(fs, m, e));
    SeesSame(Filled(m, e.buf, bytes), Step(fs, m, e), e.buf, bytes);
  }

  lemma {:induction false} SeesSame(m: Machine, m': Machine, va: int, bytes: seq<byte>)
    requires Sees(m, va, bytes) && m'.space == m.space && m'.mem == m.mem
    ensures Sees(m', va, bytes)
  {
    assert forall i :: 0 <= i < |bytes| ==> SeesByte(m, va + i, bytes[i]);
  }

  /** A read whose bytes do not all fit into the program faults: what fits arrives, and no descriptor
      moves. */
  lemma {:induction false} ReadRunsOut(fs: Image, m: Machine, e: Event, k: nat)
    requires IsSystem(fs) && IsMachine(m) && !m.space.vidmap && e.Read? && IsEvent(e)
    requires InProgram(e.buf, k) && e.buf + k == 0x840_0000 && k < |Result(fs, m, e).1|
    ensures var m', bytes := Step(fs, m, e), Result(fs, m, e).1;
            m'.procs == m.procs && m'.space == m.space && Sees(m', e.buf, bytes[..k])
  {
    hide ReadResult, Sees, Filled;
    BufferRunsOut(m, e.buf, Result(fs, m, e).1, k);
    FilledIs(m, e.buf, Result(fs, m, e).1);
  }

  /** A read without a buffer, or of a descriptor that is neither the keyboard's nor open, fails. */
  lemma {:induction false} BadRead(fs: Image, m: Machine, e: Event)
    requires IsSystem(fs) && IsMachine(m) && e.Read? && IsEvent(e)
    requires e.buf == 0 || e.fd < 0 || e.fd == 1 || e.fd >= 8 || (e.fd >= 2 && Running(m).slots[e.fd - 2] == Closed)
    ensures Result(fs, m, e) == (-1, []) && Step(fs, m, e) == m
  {
    ReadFails(fs, m, e.fd, e.buf, e.n, e.keys);
  }

  // ------------------------------------------------------------- series of reads

  predicate AllReads(es: seq<Event>)
  {
    forall i :: 0 <= i < |es| ==> es[i].Read?
  }

  function SizesOf(es: seq<Event>): (r: seq<nat>)
    requires AllReads(es)
    ensures |r| == |es|
  {
    seq(|es|, i requires 0 <= i < |es| => es[i].n % WORD32)
  }

  /** Everything that a series of reads delivers. */
  ghost function Delivery(fs: Image, m: Machine, es: seq<Event>): seq<byte>
    requires Boots(fs) && IsMachine(m) && AllHarmless(fs, m, es) && AllReads(es)
  {
    if es == [] then []
    else
      var before, last := es[..|es| - 1], es[|es| - 1];
      Delivery(fs, m, before) + Result(fs, Run(fs, m, before), last).1
  }

  /** Reads of the program are harmless. */
  lemma {:induction false} ReadsAreHarmless(fs: Image, m: Machine, es: seq<Event>, fd: int)
    requires Boots(fs) && IsMachine(m) && AreReadsOf(es, fd)
    ensures AllHarmless(fs, m, es)
  {
    hide AllHarmless, IsMachine, Boots;
    forall k | 0 <= k < |es|
      ensures IsPolite(es[k])
    {
      assert IsReadOf(es[k], fd);
    }
    PoliteRunIsHarmless(fs, m, es);
  }

  /** Descriptor fd is in state s, and the others are as in rest. */
  ghost predicate Holds(m: Machine, fd: int, rest: seq<Slot>, s: Slot)
  {
    m.procs != [] && 2 <= fd < 8 && |rest| == 6 && Running(m).slots == rest[fd - 2 := s]
  }

  lemma {:induction false} HoldsNow(m: Machine, fd: int, s: Slot)
    requires IsMachine(m) && 2 <= fd < 8 && Running(m).slots[fd - 2] == s && s.Opened?
    ensures IsOpen(m, fd) && Holds(m, fd, Running(m).slots, s)
  {
  }

  lemma {:induction false} HeldIsOpen(m: Machine, fd: int, rest: seq<Slot>, s: Slot)
    requires IsMachine(m) && Holds(m, fd, rest, s) && s.Opened?
    ensures m.procs != [] && 2 <= fd < 8 && |rest| == 6
    ensures IsOpen(m, fd) && Running(m).slots[fd - 2] == s && Running(m).slots == rest[fd - 2 := s]
  {
  }

  lemma {:induction false} NextHolds(fs: Image, m: Machine, e: Event, fd: int, rest: seq<Slot>, s: Slot)
    requires IsSystem(fs) && IsMachine(m) && Holds(m, fd, rest, s) && s.Opened? && IsReadOf(e, fd)
    ensures Harmless(fs, m, e) && IsMachine(Step(fs, m, e))
    ensures Holds(Step(fs, m, e), fd, rest, s.(pos := PosAfterRead(fs, s, e.n)))
  {
    hide IsMachine, IsSystem, Step, PosAfterRead, InProgram, Sees, Harmless, Holds;
    HeldIsOpen(m, fd, rest, s);
    ReadMoves(fs, m, e, fd, s);
    var m' := Step(fs, m, e);
    MovedHolds(m', fd, rest, s, s.(pos := PosAfterRead(fs, s, e.n)));
  }

  lemma {:induction false} MovedHolds(m: Machine, fd: int, rest: seq<Slot>, s: Slot, s': Slot)
    requires m.procs != [] && 2 <= fd < 8 && |rest| == 6
    requires Running(m).slots == rest[fd - 2 := s][fd - 2 := s']
    ensures Holds(m, fd, rest, s')
  {
  }

  lemma {:induction false} RunOfMore(fs: Image, m: Machine, es: seq<Event>)
    requires Boots(fs) && IsMachine(m) && AllHarmless(fs, m, es) && es != [] && AllReads(es)
    ensures var before, last := es[..|es| - 1], es[|es| - 1];
            && AllHarmless(fs, m, before) && AllReads(before) && IsEvent(last)
            && Run(fs, m, es) == Step(fs, Run(fs, m, before), last)
            && Delivery(fs, m, es) == Delivery(fs, m, before) + Result(fs, Run(fs, m, before), last).1
            && SizesOf(es) == SizesOf(before) + [last.n % WORD32]
  {
    hide Step, ReadResult, SizesOf, IsMachine, Boots;
    MoreSizes(es);
  }

  lemma {:induction false} MoreSizes(es: seq<Event>)
    requires es != [] && AllReads(es)
    ensures AllReads(es[..|es| - 1]) && SizesOf(es) == SizesOf(es[..|es| - 1]) + [es[|es| - 1].n % WORD32]
  {
  }

  /** Reads of an open file deliver its consecutive bytes, from its start on. */
  lemma {:induction false} FileReads(fs: Image, m: Machine, fd: int, rest: seq<Slot>, inode: nat, es: seq<Event>)
    requires Boots(fs) && IsMachine(m) && AreReadsOf(es, fd) && inode < |fs.inodes|
    requires Holds(m, fd, rest, Opened(FileKind, inode, 0)) && AllHarmless(fs, m, es)
    ensures var pos := PosAfter(fs.inodes[inode].length, 0, SizesOf(es));
            && Holds(Run(fs, m, es), fd, rest, Opened(FileKind, inode, pos))
            && Delivery(fs, m, es) == AllDelivered(fs, inode, 0, SizesOf(es))
            && pos <= fs.inodes[inode].length + 1
  {
    hide Step, Harmless, InProgram, ReadResult, Holds, Run, AllHarmless, Delivery, AllDelivered, PosAfter, IsMachine;
    hide PosAfterRead, IsSystem, SizesOf;
    if es == [] {
      NothingRead(fs, m, inode);
    } else {
      var before, last := es[..|es| - 1], es[|es| - 1];
      RunOfMore(fs, m, es);
      var m1 := Run(fs, m, before);
      FileReads(fs, m, fd, rest, inode, before);
      NextFileRead(fs, m1, last, fd, rest, inode, SizesOf(before));
    }
    ReadsAreConsecutive(fs, inode, SizesOf(es));
  }

  lemma {:induction false} NextFileRead(fs: Image, m: Machine, e: Event, fd: int, rest: seq<Slot>, inode: nat,
                                        sizes: seq<nat>)
    requires IsSystem(fs) && IsMachine(m) && IsReadOf(e, fd) && inode < |fs.inodes|
    requires PosAfter(fs.inodes[inode].length, 0, sizes) <= fs.inodes[inode].length + 1
    requires Holds(m, fd, rest, Opened(FileKind, inode, PosAfter(fs.inodes[inode].length, 0, sizes)))
    ensures var all := sizes + [e.n % WORD32];
            && Holds(Step(fs, m, e), fd, rest, Opened(FileKind, inode, PosAfter(fs.inodes[inode].length, 0, all)))
            && AllDelivered(fs, inode, 0, all) == AllDelivered(fs, inode, 0, sizes) + Result(fs, m, e).1
  {
    hide Step, InProgram, ReadResult, Holds, AllDelivered, PosAfter, IsMachine, PosAfterRead, IsSystem;
    var s := Opened(FileKind, inode, PosAfter(fs.inodes[inode].length, 0, sizes));
    NextHolds(fs, m, e, fd, rest, s);
    FileResult(fs, m, e, fd, rest, s);
    DeliveredMore(fs, inode, sizes, e.n % WORD32);
  }

  lemma {:induction false} NothingRead(fs: Image, m: Machine, inode: nat)
    requires Boots(fs) && IsMachine(m) && inode < |fs.inodes|
    ensures AllHarmless(fs, m, []) && Run(fs, m, []) == m && Delivery(fs, m, []) == [] && SizesOf([]) == []
    ensures AllDelivered(fs, inode, 0, []) == [] && PosAfter(fs.inodes[inode].length, 0, []) == 0
  {
  }

  lemma {:induction false} DeliveredMore(fs: Image, inode: nat, sizes: seq<nat>, n: nat)
    requires inode < |fs.inodes|
    ensures var length := fs.inodes[inode].length;
            var pos := PosAfter(length, 0, sizes);
            var d := FileSystem.Delivered(length, pos, n);
            && PosAfter(length, 0, sizes + [n]) == pos + d
            && AllDelivered(fs, inode, 0, sizes + [n]) == AllDelivered(fs, inode, 0, sizes) + BytesAt(fs, inode, pos, d)
  {
    assert (sizes + [n])[..|sizes|] == sizes;
    hide BytesAt;
  }

  lemma {:induction false} FileResult(fs: Image, m: Machine, e: Event, fd: int, rest: seq<Slot>, s: Slot)
    requires IsSystem(fs) && IsMachine(m) && Holds(m, fd, rest, s) && IsReadOf(e, fd) && s.Opened?
    requires s.kind == FileKind && s.inode < |fs.inodes| && s.pos <= fs.inodes[s.inode].length + 1
    ensures var d := FileSystem.Delivered(fs.inodes[s.inode].length, s.pos, e.n % WORD32);
            && Result(fs, m, e) == (d, BytesAt(fs, s.inode, s.pos, d))
            && PosAfterRead(fs, s, e.n) == s.pos + d
  {
    HeldIsOpen(m, fd, rest, s);
    hide BytesAt, IsMachine, Holds;
  }

  /** Opening a regular file by name and reading it: whatever the sizes, the reads deliver the bytes of
      the file that the entry names, from its first byte on and in order, and of what follows the
      file in memory at most one byte. */
  lemma {:induction false} NamedFileIsRead(fs: Image, m: Machine, name: seq<byte>, k: nat, m1: Machine,
                                           es: seq<Event>)
    requires Boots(fs) && IsMachine(m) && IsFirst(fs, name, k) && OpenResult(fs, m, name) != -1
    requires fs.dentries[k].fileType == 2 && m1 == Step(fs, m, Open(name)) && IsMachine(m1)
    requires AreReadsOf(es, OpenResult(fs, m, name)) && AllHarmless(fs, m1, es)
    ensures var inode := fs.dentries[k].inode;
            var delivered := Delivery(fs, m1, es);
            && |delivered| == PosAfter(fs.inodes[inode].length, 0, SizesOf(es)) <= fs.inodes[inode].length + 1
            && delivered == Stream(fs, inode)[..|delivered|]
  {
    hide Step, Delivery, AllHarmless, InProgram, OpenResult;
    var fd, inode := OpenResult(fs, m, name), fs.dentries[k].inode;
    OpenOpens(fs, m, name, k);
    HoldsNow(m1, fd, Opened(FileKind, inode, 0));
    FileReads(fs, m1, fd, Running(m1).slots, inode, es);
    ReadsAreConsecutive(fs, inode, SizesOf(es));
  }

  /** Opening a directory and reading it: the reads deliver the names of its entries in order, 32 bytes
      each, then 0, and then start again. */
  lemma {:induction false} DirectoryReads(fs: Image, m: Machine, fd: int, rest: seq<Slot>, s: Slot, es: seq<Event>,
                                          e: Event)
    requires Boots(fs) && IsMachine(m) && AreReadsOf(es, fd) && IsReadOf(e, fd) && s.Opened?
    requires Holds(m, fd, rest, s) && s.kind == DirKind && s.pos == 0 && AllHarmless(fs, m, es)
    requires |es| <= Listed(fs.dentries)
    ensures var m' := Run(fs, m, es);
            && Holds(m', fd, rest, s.(pos := |es|))
            && (|es| < Listed(fs.dentries) ==> Result(fs, m', e) == (32, Padded(NameOf(fs.dentries[|es|]))))
            && (|es| == Listed(fs.dentries) ==>
                  Result(fs, m', e) == (0, []) && Holds(Step(fs, m', e), fd, rest, s))
  {
    hide Step, Harmless, InProgram, ReadResult, NameOf, Padded, Holds, AllHarmless, IsMachine, PosAfterRead;
    if es != [] {
      var before, last := es[..|es| - 1], es[|es| - 1];
      RunOfMore(fs, m, es);
      DirectoryReads(fs, m, fd, rest, s, before, last);
      NextHolds(fs, Run(fs, m, before), last, fd, rest, s.(pos := |before|));
      DirectoryResult(fs, Run(fs, m, before), last, fd, rest, s.(pos := |before|));
    }
    var m' := Run(fs, m, es);
    NextHolds(fs, m', e, fd, rest, s.(pos := |es|));
    DirectoryResult(fs, m', e, fd, rest, s.(pos := |es|));
  }

  lemma {:induction false} DirectoryResult(fs: Image, m: Machine, e: Event, fd: int, rest: seq<Slot>, s: Slot)
    requires IsSystem(fs) && IsMachine(m) && Holds(m, fd, rest, s) && IsReadOf(e, fd) && s.Opened?
    requires s.kind == DirKind && s.pos <= Listed(fs.dentries)
    ensures if s.pos < Listed(fs.dentries)
            then Result(fs, m, e) == (32, Padded(NameOf(fs.dentries[s.pos]))) && PosAfterRead(fs, s, e.n) == s.pos + 1
            else Result(fs, m, e) == (0, []) && PosAfterRead(fs, s, e.n) == 0
  {
    HeldIsOpen(m, fd, rest, s);
    hide NameOf, Padded, Holds;
  }

  /** Opening any other entry, which is the clock, and reading it: every read returns 0. */
  lemma {:induction false} ClockReads(fs: Image, m: Machine, fd: int, rest: seq<Slot>, s: Slot, es: seq<Event>,
                                      e: Event)
    requires Boots(fs) && IsMachine(m) && AreReadsOf(es, fd) && IsReadOf(e, fd) && s.Opened?
    requires Holds(m, fd, rest, s) && s.kind == RtcKind && AllHarmless(fs, m, es)
    ensures Holds(Run(fs, m, es), fd, rest, s) && Result(fs, Run(fs, m, es), e) == (0, [])
  {
    hide Step, Harmless, InProgram, ReadResult, Holds, AllHarmless, IsMachine;
    if es != [] {
      var before, last := es[..|es| - 1], es[|es| - 1];
      RunOfMore(fs, m, es);
      ClockReads(fs, m, fd, rest, s, before, last);
      NextHolds(fs, Run(fs, m, before), last, fd, rest, s);
    }
    ClockResult(fs, Run(fs, m, es), e, fd, rest, s);
  }

  /** The same after opening an entry of type 1 by name. */
  lemma {:induction false} NamedDirectoryIsRead(fs: Image, m: Machine, name: seq<byte>, k: nat, m1: Machine,
                                                es: seq<Event>, e: Event)
    requires Boots(fs) && IsMachine(m) && IsFirst(fs, name, k) && OpenResult(fs, m, name) != -1
    requires fs.dentries[k].fileType == 1 && m1 == Step(fs, m, Open(name)) && IsMachine(m1)
    requires AreReadsOf(es, OpenResult(fs, m, name)) && IsReadOf(e, OpenResult(fs, m, name))
    requires AllHarmless(fs, m1, es) && |es| <= Listed(fs.dentries)
    ensures Result(fs, Run(fs, m1, es), e)
            == if |es| < Listed(fs.dentries) then (32, Padded(NameOf(fs.dentries[|es|]))) else (0, [])
  {
    hide Step, AllHarmless, InProgram, OpenResult, NameOf, Padded, ReadResult;
    var fd := OpenResult(fs, m, name);
    OpenOpens(fs, m, name, k);
    var s := Running(m1).slots[fd - 2];
    HoldsNow(m1, fd, s);
    DirectoryReads(fs, m1, fd, Running(m1).slots, s, es, e);
  }

  /** And after opening an entry of any type but 1 and 2. */
  lemma {:induction false} NamedClockIsRead(fs: Image, m: Machine, name: seq<byte>, k: nat, m1: Machine,
                                            es: seq<Event>, e: Event)
    requires Boots(fs) && IsMachine(m) && IsFirst(fs, name, k) && OpenResult(fs, m, name) != -1
    requires fs.dentries[k].fileType != 1 && fs.dentries[k].fileType != 2
    requires m1 == Step(fs, m, Open(name)) && IsMachine(m1)
    requires AreReadsOf(es, OpenResult(fs, m, name)) && IsReadOf(e, OpenResult(fs, m, name))
    requires AllHarmless(fs, m1, es)
    ensures Result(fs, Run(fs, m1, es), e) == (0, [])
  {
    hide Step, AllHarmless, InProgram, OpenResult, ReadResult;
    var fd := OpenResult(fs, m, name);
    OpenOpens(fs, m, name, k);
    var s := Running(m1).slots[fd - 2];
    HoldsNow(m1, fd, s);
    ClockReads(fs, m1, fd, Running(m1).slots, s, es, e);
  }

  lemma {:induction false} ClockResult(fs: Image, m: Machine, e: Event, fd: int, rest: seq<Slot>, s: Slot)
    requires IsSystem(fs) && IsMachine(m) && Holds(m, fd, rest, s) && IsReadOf(e, fd)
    requires s.Opened? && s.kind == RtcKind
    ensures Result(fs, m, e) == (0, [])
  {
    HeldIsOpen(m, fd, rest, s);
    hide Holds;
  }

  // ------------------------------------------------------------- execute and halt

  /** The four bytes that mark an executable. */
  predicate IsElf(bytes: seq<byte>)
  {
    |bytes| >= 4 && bytes[0] == 0x7F && bytes[1] == 0x45 && bytes[2] == 0x4C && bytes[3] == 0x46
  }

  /** The first word of a command names entry k, and its file, with the byte behind it, starts with the
      mark of an executable. */
  ghost predicate NamesProgram(fs: Image, cmd: seq<byte>, k: nat)
    requires IsSystem(fs)
  {
    IsFirst(fs, FirstToken(cmd), k) && IsElf(Stream(fs, fs.dentries[k].inode))
  }

  /** Execute starts that program while fewer than six processes run: it finds the whole file at
      0x08048000 and has its own argument, and no byte of the memory changes but those of the file. */
  lemma {:induction false} ProgramStarts(fs: Image, m: Machine, cmd: seq<byte>, frame: Frame, k: nat)
    requires IsSystem(fs) && IsMachine(m) && Fits(cmd) && NamesProgram(fs, cmd, k) && |m.procs| < 6
    ensures var m', file := Step(fs, m, Execute(cmd, frame)), Content(fs, fs.dentries[k].inode);
            && IsMachine(m') && |m'.procs| == |m.procs| + 1 && m'.procs[..|m.procs|] == m.procs
            && Running(m').arg == SecondToken(cmd) && Sees(m', 0x804_8000, file)
            && (forall a :: a in m'.mem <==> a in m.mem)
            && var base := FrameOf(m', 0x804_8000);
               forall a :: a in m.mem && !(base <= a < base + |file|) ==> m'.mem[a] == m.mem[a]
  {
    ProgramIsNamed(fs, cmd, k);
    var p := Named(fs, cmd).value;
    PushKeepsMachine(fs, m, p, frame);
    PushedIsSeen(fs, m, p, frame);
    hide Sees, FrameOf, Named, IsMachine, Content, Loaded;
  }

  lemma {:induction false} ProgramIsNamed(fs: Image, cmd: seq<byte>, k: nat)
    requires IsSystem(fs) && NamesProgram(fs, cmd, k)
    ensures Named(fs, cmd) == Some(Program(SecondToken(cmd), fs.dentries[k].inode))
  {
    FirstIsFound(fs, FirstToken(cmd), k);
    var inode := fs.dentries[k].inode;
    assert BytesAt(fs, inode, 0, 4) == Stream(fs, inode)[..4] == ELF_MAGIC;
  }

  lemma {:induction false} PushedIsSeen(fs: Image, m: Machine, p: Program, frame: Frame)
    requires IsSystem(fs) && p.inode < |fs.inodes| && |m.procs| < 6 && IsOutside(m.mem)
    requires IsMachine(Pushed(fs, m, p, frame))
    ensures var m', file := Pushed(fs, m, p, frame), Content(fs, p.inode);
            && Sees(m', 0x804_8000, file) && (forall a :: a in m'.mem <==> a in m.mem)
            && var base := FrameOf(m', 0x804_8000);
               forall a :: a in m.mem && !(base <= a < base + |file|) ==> m'.mem[a] == m.mem[a]
  {
    var m', file := Pushed(fs, m, p, frame), Content(fs, p.inode);
    hide Content;
    forall i | 0 <= i < |file|
      ensures SeesByte(m', 0x804_8000 + i, file[i])
    {
      ProgramIsMapped(m', 0x804_8000 + i);
    }
  }

  /** Otherwise execute leaves everything as it was: no entry has the name, the file is not marked as
      an executable, or six processes run. */
  lemma {:induction false} NothingStarts(fs: Image, m: Machine, cmd: seq<byte>, frame: Frame)
    requires IsSystem(fs) && IsMachine(m) && Fits(cmd)
    requires |m.procs| == 6 || forall k :: !NamesProgram(fs, cmd, k)
    ensures Step(fs, m, Execute(cmd, frame)) == m
  {
    var k := Lookup(fs.dentries, FirstToken(cmd));
    if k < MAX_DENTRIES && IsExecutable(fs, fs.dentries[k].inode) {
      var inode := fs.dentries[k].inode;
      assert Stream(fs, inode)[..4] == BytesAt(fs, inode, 0, 4) == ELF_MAGIC;
      assert NamesProgram(fs, cmd, k);
    }
  }

  /** Halting the last process starts the program named shell again, with an empty argument, the frame
      of the halt and no open file. */
  lemma {:induction false} ShellStarts(fs: Image, m: Machine, status: byte, frame: Frame, k: nat)
    requires IsSystem(fs) && IsMachine(m) && |m.procs| == 1
    requires IsFirst(fs, ['s' as byte, 'h' as byte, 'e' as byte, 'l' as byte, 'l' as byte], k)
    requires IsElf(Stream(fs, fs.dentries[k].inode))
    ensures var m', file := Step(fs, m, Halt(status, frame)), Content(fs, fs.dentries[k].inode);
            && IsMachine(m') && |m'.procs| == 1 && Running(m').arg == [] && Running(m').frame == frame
            && (forall j :: 0 <= j < 6 ==> Running(m').slots[j] == Closed) && Sees(m', 0x804_8000, file)
  {
    hide Sees, FrameOf, Named, IsMachine, Content, Loaded, IsSystem, IsElf, IsFirst, FirstToken, SecondToken, Pushed;
    ShellFits();
    ProgramIsNamed(fs, SHELL, k);
    HaltRestarts(fs, m, frame);
    var none, p := m.(procs := [], space := m.space.(image := 0)), Named(fs, SHELL).value;
    PushKeepsMachine(fs, none, p, frame);
    PushedIsSeen(fs, none, p, frame);
    PushedIs(fs, none, p, frame);
  }

  lemma {:induction false} HaltRestarts(fs: Image, m: Machine, frame: Frame)
    requires IsSystem(fs) && IsMachine(m) && |m.procs| == 1 && Named(fs, SHELL).Some?
    ensures var none := m.(procs := [], space := m.space.(image := 0));
            && Halted(fs, m, frame) == Pushed(fs, none, Named(fs, SHELL).value, frame)
            && IsSpace(none.space) && IsOutside(none.mem)
  {
    hide Named, Loaded, Content;
  }

  lemma {:induction false} PushedIs(fs: Image, m: Machine, p: Program, frame: Frame)
    requires p.inode < |fs.inodes|
    ensures var m' := Pushed(fs, m, p, frame);
            && |m'.procs| == |m.procs| + 1 && m'.procs[|m.procs|].arg == p.arg && m'.procs[|m.procs|].frame == frame
            && |m'.procs[|m.procs|].slots| == 6
            && forall j :: 0 <= j < 6 ==> m'.procs[|m.procs|].slots[j] == Closed
  {
    hide Loaded, Content;
  }

  /** What halt returns to the parent: 1 arrives as 256, every other byte as itself. */
  lemma {:induction false} StatusArrives(status: byte)
    ensures StatusToParent(1) == 256 && (status != 1 ==> StatusToParent(status) == status as int)
  {
  }

  // ------------------------------------------------------------- vidmap and the terminals' pages

  /** After a vidmap into the program, the program finds the address 0x08400000 where it asked, lowest
      byte first, and the screen at that address. */
  lemma {:induction false} ScreenIsMapped(fs: Image, m: Machine, ptr: int)
    requires IsSystem(fs) && IsMachine(m) && InProgram(ptr, 4)
    ensures var m' := Step(fs, m, Vidmap(ptr));
            && Sees(m', ptr, [0x00, 0x00, 0x40, 0x08]) && m'.procs == m.procs
            && (forall va :: 0x840_0000 <= va < 0x840_1000 ==>
                  Meaning(m'.space, va) == Phys(va - 0x840_0000 + 0xB_8000, true))
            && (forall a :: a in m'.mem <==> a in m.mem)
            && forall a :: a in m.mem && !(FrameOf(m, ptr) <= a < FrameOf(m, ptr) + 4) ==> m'.mem[a] == m.mem[a]
  {
    var m0 := m.(space := m.space.(vidmap := true));
    BufferIsFilled(m0, ptr, [0x00, 0x00, 0x40, 0x08]);
    hide Filled, Sees;
  }

  /** Other addresses are refused. */
  lemma {:induction false} VidmapRefused(fs: Image, m: Machine, ptr: int)
    requires IsSystem(fs) && IsMachine(m) && (ptr < 0x800_0000 || ptr >= 0x840_0000)
    ensures Step(fs, m, Vidmap(ptr)) == m
  {
  }

  /** Saving terminal t copies the 4096 bytes of the screen to its page, restoring copies them back, and
      nothing else changes. */
  lemma {:induction false} TerminalIsCopied(fs: Image, m: Machine, t: int, save: bool)
    requires IsSystem(fs) && IsMachine(m) && 0 <= t < 3
    ensures var m', page := Step(fs, m, Event.Terminal(t, save)), 0x1C0_0000 + 0x1000 * t;
            var to, from := if save then page else 0xB_8000, if save then 0xB_8000 else page;
            && m'.procs == m.procs && (forall a :: a in m'.mem <==> a in m.mem)
            && (forall a :: a in m.mem && !(to <= a < to + 0x1000) ==> m'.mem[a] == m.mem[a])
            && (forall a :: to <= a < to + 0x1000 ==>
                  a in m'.mem && a - to + from in m.mem && m'.mem[a] == m.mem[a - to + from])
            && (forall va :: 0x840_1000 <= va < 0x840_2000 ==>
                  Meaning(m'.space, va) == Phys(page + va - 0x840_1000, true))
            && (forall va :: !(0x840_1000 <= va < 0x840_2000) ==> Meaning(m'.space, va) == Meaning(m.space, va))
  {
  }

  // ------------------------------------------------------------- the keyboard

  /** A line that is typed, edited and ended by Enter is what the program reads: its text, or as much
      of it as was asked for, arrives in the buffer, with a NUL behind all of it if there is room. */
  lemma {:induction false} TypedLineIsRead(fs: Image, m: Machine, t: Terminal.Term, es: seq<Terminal.Event>,
                                           buf: int, n: int)
    requires IsSystem(fs) && IsMachine(m) && Terminal.IsTerm(t) && t.index == 0 && Terminal.AllTyping(es)
    requires 0 <= n < 0x8000_0000 && InProgram(buf, n)
    ensures var line := Terminal.Edited(es);
            var got := if |line| < n then line else line[..n];
            var stored := got + (if |line| < n && |line| < 128 then [0] else []);
            var e := Read(0, buf, n, Terminal.Handle(Terminal.HandleAll(t, es), Terminal.Enter).keys);
            && IsEvent(e) && Result(fs, m, e) == (if |line| < 128 || n < 128 then |got| else 0, stored)
            && Sees(Step(fs, m, e), buf, stored)
  {
    hide Terminal.Handle, Terminal.Edited, IsMachine, Sees, Filled, Terminal.StoredKeys, Terminal.ReadResult;
    var keys := Terminal.Handle(Terminal.HandleAll(t, es), Terminal.Enter).keys;
    Terminal.ReadDeliversLine(t, es, n);
    ReadsKeys(fs, m, buf, n, keys);
    var line := Terminal.Edited(es);
    assert |line| < n ==> line[..|line|] == line;
    BufferIsFilled(m, buf, Terminal.StoredKeys(keys, n));
  }
}
