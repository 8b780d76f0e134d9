/** The grep program on the kernel's file system: the read system call presents a file as the
    program's descriptor expects it, and a search prints the file's matching lines. */
module Search {
  import opened Bytes
  import opened FileSystem
  import opened Machine
  import opened Sizes
  import Grep

  /** A read of n bytes at position pos of a descriptor: its count and its bytes. */
  ghost predicate TakesNext(stream: seq<byte>, length: nat, pos: nat, n: nat, cnt: int, bytes: seq<byte>)
  {
    && cnt == (if pos >= length then 0 else if n < |stream| - pos then n else |stream| - pos)
    && 0 <= cnt && pos + cnt <= |stream| && bytes == stream[pos..pos + cnt]
  }

  lemma {:induction false} ReadTakesNext(fs: Image, inode: nat, pos: nat, n: nat)
    requires inode < |fs.inodes| && pos <= fs.inodes[inode].length + 1
    ensures var cnt := FileSystem.Delivered(fs.inodes[inode].length, pos, n);
            TakesNext(Stream(fs, inode), fs.inodes[inode].length, pos, n, cnt, BytesAt(fs, inode, pos, cnt))
  {
  }

  lemma {:induction false} ReadsFile(fs: Image, m: Machine, fd: int, buf: int, n: nat, keys: seq<byte>, s: Slot)
    requires IsSystem(fs) && IsMachine(m) && n < WORD32 && buf != 0 && |keys| == NUM_KEYS
    requires IsOpen(m, fd) && s == Running(m).slots[fd - 2] && s.kind == FileKind && s.inode < |fs.inodes|
    requires s.pos <= fs.inodes[s.inode].length + 1
    ensures var d := FileSystem.Delivered(fs.inodes[s.inode].length, s.pos, n);
            var bytes := BytesAt(fs, s.inode, s.pos, d);
            && ReadResult(fs, m, fd, buf, n, keys) == (d, bytes)
            && AfterRead(fs, m, fd, buf, n, keys)
               == if AllReached(m.space, buf, d)
                  then WithSlot(Filled(m, buf, bytes), fd - 2, s.(pos := s.pos + d))
                  else Filled(m, buf, bytes)
  {
    assert s.pos + FileSystem.Delivered(fs.inodes[s.inode].length, s.pos, n) < WORD32;
    hide WithSlot, BytesAt, AllReached, FileSystem.Delivered, IsSystem, IsMachine;
  }

  /** What the read system call does on an open file is what the program's descriptor does: it takes
      the next bytes, stores them in the buffer, and advances, unless the buffer cannot be written. */
  lemma {:induction false} SystemCallIsDescriptor(fs: Image, m: Machine, fd: int, buf: int, n: nat, keys: seq<byte>,
                                                  s: Slot)
    requires IsSystem(fs) && IsMachine(m) && n < WORD32 && buf != 0 && |keys| == NUM_KEYS
    requires IsOpen(m, fd) && s == Running(m).slots[fd - 2] && s.kind == FileKind && s.inode < |fs.inodes|
    requires s.pos <= fs.inodes[s.inode].length + 1
    ensures var (cnt, bytes) := ReadResult(fs, m, fd, buf, n, keys);
            && TakesNext(Stream(fs, s.inode), fs.inodes[s.inode].length, s.pos, n, cnt, bytes)
            && AfterRead(fs, m, fd, buf, n, keys)
               == if AllReached(m.space, buf, cnt)
                  then WithSlot(Filled(m, buf, bytes), fd - 2, s.(pos := s.pos + cnt))
                  else Filled(m, buf, bytes)
  {
    hide AfterRead, ReadResult, AllReached, BytesAt, FileSystem.Delivered, IsSystem, Filled;
    ReadTakesNext(fs, s.inode, s.pos, n);
    ReadsFile(fs, m, fd, buf, n, keys, s);
  }

  // ------------------------------------------------------------- one file

  /** What a program reads from a file until read returns 0: nothing from the clock. */
  ghost function TextOf(fs: Image, k: nat): seq<byte>
    requires IsSystem(fs) && k < MAX_DENTRIES
  {
    if KindOf(fs.dentries[k].fileType) == RtcKind then [] else Content(fs, fs.dentries[k].inode)
  }

  /** The byte that follows a file in memory; any byte can. */
  ghost function ByteBehind(fs: Image, k: nat): byte
    requires IsSystem(fs) && k < MAX_DENTRIES
  {
    var inode := fs.dentries[k].inode;
    if KindOf(fs.dentries[k].fileType) == RtcKind then NUL else ByteAt(fs, inode, fs.inodes[inode].length)
  }

  /** A regular file or the clock: directories are read by name. */
  ghost predicate IsSearchable(fs: Image, k: nat)
    requires IsSystem(fs) && k < MAX_DENTRIES
  {
    KindOf(fs.dentries[k].fileType) != DirKind
  }

  /** What grep finds in a file, whatever its bytes are, when its buffer holds stale bytes. */
  ghost function Found(fs: Image, k: nat, pattern: seq<byte>, stale: Grep.Buffer): seq<seq<byte>>
    requires IsSystem(fs) && k < MAX_DENTRIES
  {
    Grep.Printed(TextOf(fs, k), [ByteBehind(fs, k)], stale, pattern)
  }

  /** No line that is longer than the window matches, and the byte behind the file is not read or
      does not show. */
  ghost predicate IsExact(fs: Image, k: nat, pattern: seq<byte>)
    requires IsSystem(fs) && k < MAX_DENTRIES
  {
    var text := TextOf(fs, k);
    && Grep.NoLongMatch(Grep.Lines(text), pattern)
    && (Grep.EndsWithWindow(text, false) || !Grep.Shows(Grep.LastPiece(text), ByteBehind(fs, k), pattern))
  }

  /** Grep finds the matching lines of a file of text exactly under that condition. */
  lemma {:induction false} FoundIsPromised(fs: Image, k: nat, pattern: seq<byte>, stale: Grep.Buffer)
    requires IsSystem(fs) && k < MAX_DENTRIES && NUL !in TextOf(fs, k) && stale[Grep.BUFSIZE] != NEWLINE
    requires NUL !in pattern && pattern != []
    ensures Found(fs, k, pattern, stale) == Grep.Matches(TextOf(fs, k), pattern) <==> IsExact(fs, k, pattern)
  {
    hide Grep.Printed, Grep.Matches, Grep.NoLongMatch, Grep.EndsWithWindow, Grep.Shows, Grep.ArrivesWhole, IsSystem;
    Grep.TextArrivesWhole(TextOf(fs, k), [ByteBehind(fs, k)], stale);
    Grep.PrintedIsExact(TextOf(fs, k), ByteBehind(fs, k), stale, pattern);
  }

  /** Opens a searchable entry as the program sees it. */
  method OpenEntry(fs: Image, ghost k: nat, entry: Dentry, ghost stale: Grep.Buffer, ghost pattern: seq<byte>)
    returns (file: Grep.Descriptor)
    requires IsSystem(fs) && k < MAX_DENTRIES && IsSearchable(fs, k)
    requires entry.fileType == fs.dentries[k].fileType && entry.inode == fs.dentries[k].inode
    ensures fresh(file) && file.Valid() && file.pos == 0 && file.readable
    ensures Grep.Printed(file.stream[..file.length], file.stream[file.length..], stale, pattern)
            == Found(fs, k, pattern, stale)
  {
    ghost var text := TextOf(fs, k);
    hide Grep.EndsWithWindow, Grep.Printed;
    if KindOf(entry.fileType) == RtcKind {
      file := new Grep.Descriptor([], 0, true);
      NothingIsPrinted([ByteBehind(fs, k)], stale, pattern);
      NothingIsPrinted(file.stream[file.length..], stale, pattern);
    } else {
      var stream := Stream(fs, entry.inode);
      assert stream[..|text|] == text && stream[|text|..] == [ByteBehind(fs, k)];
      file := new Grep.Descriptor(stream, fs.inodes[entry.inode].length, true);
    }
  }

  lemma {:induction false} NothingIsPrinted(slack: seq<byte>, stale: Grep.Buffer, pattern: seq<byte>)
    ensures Grep.Printed([], slack, stale, pattern) == []
  {
  }

  /** Searching a named file prints what is found in it, for all its bytes, for every byte that may
      follow it in memory and for every content of the buffer. */
  method GrepFile(fs: Image, fname: seq<byte>, pattern: seq<byte>, stale: Grep.Buffer)
    returns (ret: int, console: seq<byte>)
    requires IsSystem(fs) && NUL !in fname && NUL !in pattern
    requires Lookup(fs.dentries, fname) < MAX_DENTRIES ==> IsSearchable(fs, Lookup(fs.dentries, fname))
    ensures var k := Lookup(fs.dentries, fname);
            if k == MAX_DENTRIES then ret == -1
            else ret == 0 && console == Grep.Render(fname, Found(fs, k, pattern, stale))
  {
    hide Grep.Printed, Grep.Render, IsSearchable, Found;
    var found, entry := ReadDentryByName(fs, fname);
    if found == -1 {
      return -1, [];
    }
    var file := OpenEntry(fs, Lookup(fs.dentries, fname), entry, stale, pattern);
    ret, console := Grep.DoOneFile(pattern, fname, file, stale);
  }

  // ------------------------------------------------------------- every file

  /** Entries whose names start with a dot are skipped. */
  predicate IsHidden(entry: Dentry)
  {
    NameOf(entry) != [] && NameOf(entry)[0] == 46
  }

  /** The entry that is opened under a listed name: the first one of that name. */
  ghost function FirstNamed(fs: Image, i: nat): (k: nat)
    requires IsSystem(fs) && i < MAX_DENTRIES
    ensures k <= i && NameOf(fs.dentries[k]) == NameOf(fs.dentries[i])
  {
    Lookup(fs.dentries, NameOf(fs.dentries[i]))
  }

  /** Every listed name that is not hidden opens a searchable file. */
  ghost predicate AllSearchable(fs: Image, n: nat)
    requires IsSystem(fs) && n <= MAX_DENTRIES
  {
    forall i :: 0 <= i < n && !IsHidden(fs.dentries[i]) ==> IsSearchable(fs, FirstNamed(fs, i))
  }

  /** One file's part of a report: its name and its lines. */
  datatype Entry = Entry(name: seq<byte>, records: seq<seq<byte>>)

  /** What grep reports over the first n entries. */
  ghost function Report(fs: Image, pattern: seq<byte>, n: nat, stale: nat -> Grep.Buffer): seq<Entry>
    requires IsSystem(fs) && n <= MAX_DENTRIES
  {
    if n == 0 then []
    else
      var name := NameOf(fs.dentries[n - 1]);
      Report(fs, pattern, n - 1, stale)
      + if IsHidden(fs.dentries[n - 1]) then []
        else [Entry(name, Found(fs, FirstNamed(fs, n - 1), pattern, stale(n - 1)))]
  }

  /** The report that grep promises: the matching lines of each named file. */
  ghost function Promised(fs: Image, pattern: seq<byte>, n: nat): seq<Entry>
    requires IsSystem(fs) && n <= MAX_DENTRIES
  {
    if n == 0 then []
    else
      var name := NameOf(fs.dentries[n - 1]);
      Promised(fs, pattern, n - 1)
      + if IsHidden(fs.dentries[n - 1]) then []
        else [Entry(name, Grep.Matches(TextOf(fs, FirstNamed(fs, n - 1)), pattern))]
  }

  /** A file without a NUL, and a buffer that has no newline at its end. */
  ghost predicate HasText(fs: Image, k: nat, stale: Grep.Buffer)
    requires IsSystem(fs) && k < MAX_DENTRIES
  {
    NUL !in TextOf(fs, k) && stale[Grep.BUFSIZE] != NEWLINE
  }

  ghost predicate AllText(fs: Image, n: nat, stale: nat -> Grep.Buffer)
    requires IsSystem(fs) && n <= MAX_DENTRIES
  {
    forall i :: 0 <= i < n && !IsHidden(fs.dentries[i]) ==> HasText(fs, FirstNamed(fs, i), stale(i))
  }

  ghost predicate AllExact(fs: Image, pattern: seq<byte>, n: nat)
    requires IsSystem(fs) && n <= MAX_DENTRIES
  {
    forall i :: 0 <= i < n && !IsHidden(fs.dentries[i]) ==> IsExact(fs, FirstNamed(fs, i), pattern)
  }

  lemma {:induction false} LongerReports<T>(a: seq<T>, b: seq<T>, x: T, y: T)
    ensures a + [x] == b + [y] <==> a == b && x == y
  {
    if a + [x] == b + [y] {
      assert (a + [x])[..|a|] == a && (b + [y])[..|b|] == b;
      assert (a + [x])[|a|] == x && (b + [y])[|b|] == y;
    }
  }

  lemma {:induction false} NothingReported(fs: Image, pattern: seq<byte>, stale: nat -> Grep.Buffer)
    requires IsSystem(fs)
    ensures Report(fs, pattern, 0, stale) == Promised(fs, pattern, 0) && AllExact(fs, pattern, 0)
  {
  }

  lemma {:induction false} OneMoreExact(fs: Image, pattern: seq<byte>, n: nat, stale: nat -> Grep.Buffer)
    requires IsSystem(fs) && 0 < n <= MAX_DENTRIES
    ensures var shown := !IsHidden(fs.dentries[n - 1]);
            && (AllExact(fs, pattern, n)
                <==> AllExact(fs, pattern, n - 1) && (shown ==> IsExact(fs, FirstNamed(fs, n - 1), pattern)))
            && (AllText(fs, n, stale) ==>
                  AllText(fs, n - 1, stale) && (shown ==> HasText(fs, FirstNamed(fs, n - 1), stale(n - 1))))
  {
    hide IsExact, HasText, IsHidden, FirstNamed;
  }

  lemma {:induction false} OneMoreReported(fs: Image, pattern: seq<byte>, n: nat, stale: nat -> Grep.Buffer)
    requires IsSystem(fs) && 0 < n <= MAX_DENTRIES && NUL !in pattern && pattern != []
    requires !IsHidden(fs.dentries[n - 1]) ==> HasText(fs, FirstNamed(fs, n - 1), stale(n - 1))
    ensures Report(fs, pattern, n, stale) == Promised(fs, pattern, n)
            <==> && Report(fs, pattern, n - 1, stale) == Promised(fs, pattern, n - 1)
                 && (!IsHidden(fs.dentries[n - 1]) ==> IsExact(fs, FirstNamed(fs, n - 1), pattern))
  {
    hide Found, Grep.Matches, IsExact, IsHidden, TextOf, FirstNamed;
    if !IsHidden(fs.dentries[n - 1]) {
      var k, name := FirstNamed(fs, n - 1), NameOf(fs.dentries[n - 1]);
      FoundIsPromised(fs, k, pattern, stale(n - 1));
      LongerReports(Report(fs, pattern, n - 1, stale), Promised(fs, pattern, n - 1),
                    Entry(name, Found(fs, k, pattern, stale(n - 1))),
                    Entry(name, Grep.Matches(TextOf(fs, k), pattern)));
    } else {
      assert Report(fs, pattern, n - 1, stale) + [] == Report(fs, pattern, n - 1, stale);
      assert Promised(fs, pattern, n - 1) + [] == Promised(fs, pattern, n - 1);
    }
  }

  /** The report over a directory is the promised one if and only if that holds of each file that
      is opened: no matching line is longer than the window, and no byte behind a file shows. */
  lemma {:induction false} ReportIsPromised(fs: Image, pattern: seq<byte>, n: nat, stale: nat -> Grep.Buffer)
    requires IsSystem(fs) && n <= MAX_DENTRIES && AllText(fs, n, stale)
    requires NUL !in pattern && pattern != []
    ensures Report(fs, pattern, n, stale) == Promised(fs, pattern, n) <==> AllExact(fs, pattern, n)
  {
    hide *;
    if n == 0 {
      NothingReported(fs, pattern, stale);
    } else {
      OneMoreExact(fs, pattern, n, stale);
      ReportIsPromised(fs, pattern, n - 1, stale);
      OneMoreReported(fs, pattern, n, stale);
    }
  }

  /** What the terminal shows for a report. */
  function RenderAll(report: seq<Entry>): seq<byte>
  {
    if report == [] then []
    else
      var last := report[|report| - 1];
      RenderAll(report[..|report| - 1]) + Grep.Render(last.name, last.records)
  }

  lemma {:induction false} RenderOneMore(report: seq<Entry>, last: Entry)
    ensures RenderAll(report + [last]) == RenderAll(report) + Grep.Render(last.name, last.records)
  {
    assert (report + [last])[..|report|] == report;
  }

  lemma {:induction false} ShownForNothing(fs: Image, pattern: seq<byte>, stale: nat -> Grep.Buffer)
    requires IsSystem(fs)
    ensures RenderAll(Report(fs, pattern, 0, stale)) == []
  {
  }

  /** What one more entry adds to the terminal. */
  lemma {:induction false} ShownForEntry(fs: Image, pattern: seq<byte>, i: nat, stale: nat -> Grep.Buffer)
    requires IsSystem(fs) && i < MAX_DENTRIES
    ensures var name := NameOf(fs.dentries[i]);
            RenderAll(Report(fs, pattern, i + 1, stale))
            == RenderAll(Report(fs, pattern, i, stale))
               + if IsHidden(fs.dentries[i]) then []
                 else Grep.Render(name, Found(fs, FirstNamed(fs, i), pattern, stale(i)))
  {
    hide Found, Grep.Render, FirstNamed, IsHidden;
    if IsHidden(fs.dentries[i]) {
      assert Report(fs, pattern, i, stale) + [] == Report(fs, pattern, i, stale);
    } else {
      var found := Found(fs, FirstNamed(fs, i), pattern, stale(i));
      RenderOneMore(Report(fs, pattern, i, stale), Entry(NameOf(fs.dentries[i]), found));
    }
  }

  // ------------------------------------------------------------- what a report is

  /** The names of the first n entries that do not start with a dot, in their order. */
  ghost function Visible(fs: Image, n: nat): seq<seq<byte>>
    requires IsSystem(fs) && n <= MAX_DENTRIES
  {
    if n == 0 then []
    else
      var name := NameOf(fs.dentries[n - 1]);
      Visible(fs, n - 1) + if name != [] && name[0] == 46 then [] else [name]
  }

  /** A report has one part for each of these names, in their order. */
  lemma {:induction false} ReportHasVisible(fs: Image, pattern: seq<byte>, n: nat, stale: nat -> Grep.Buffer)
    requires IsSystem(fs) && n <= MAX_DENTRIES
    ensures var report, names := Report(fs, pattern, n, stale), Visible(fs, n);
            |report| == |names| && forall j :: 0 <= j < |names| ==> report[j].name == names[j]
  {
    hide Found, FirstNamed, NameOf;
    if n > 0 {
      ReportHasVisible(fs, pattern, n - 1, stale);
    }
  }

  /** Each part holds what grep prints for the file that the name opens: for an entry of type 2 that is
      searching the bytes of its inode and the byte behind them. */
  lemma {:induction false} PartIsSearched(fs: Image, pattern: seq<byte>, n: nat, stale: nat -> Grep.Buffer, i: nat)
    requires IsSystem(fs) && i < n <= MAX_DENTRIES && NameOf(fs.dentries[i]) != [] && NameOf(fs.dentries[i])[0] != 46
    ensures var report, j, k := Report(fs, pattern, n, stale), |Visible(fs, i)|, FirstNamed(fs, i);
            && j < |report| && report[j].name == NameOf(fs.dentries[i])
            && (fs.dentries[k].fileType == 2 ==>
                  var inode := fs.dentries[k].inode;
                  var slack := Stream(fs, inode)[fs.inodes[inode].length..];
                  report[j].records == Grep.Printed(Content(fs, inode), slack, stale(i), pattern))
            && (fs.dentries[k].fileType != 2 && fs.dentries[k].fileType != 1 ==> report[j].records == [])
  {
    hide Grep.Printed, Stream, Content, NameOf, FirstNamed;
    if i < n - 1 {
      PartIsSearched(fs, pattern, n - 1, stale, i);
    } else {
      ReportHasVisible(fs, pattern, i, stale);
      FoundByType(fs, FirstNamed(fs, i), pattern, stale(i));
    }
  }

  lemma {:induction false} FoundByType(fs: Image, k: nat, pattern: seq<byte>, stale: Grep.Buffer)
    requires IsSystem(fs) && k < MAX_DENTRIES
    ensures fs.dentries[k].fileType == 2 ==>
              var inode := fs.dentries[k].inode;
              var slack := Stream(fs, inode)[fs.inodes[inode].length..];
              Found(fs, k, pattern, stale) == Grep.Printed(Content(fs, inode), slack, stale, pattern)
    ensures fs.dentries[k].fileType != 2 && fs.dentries[k].fileType != 1 ==> Found(fs, k, pattern, stale) == []
  {
    var inode := fs.dentries[k].inode;
    assert Stream(fs, inode)[fs.inodes[inode].length..] == [ByteAt(fs, inode, fs.inodes[inode].length)];
    hide Grep.Printed;
    NothingIsPrinted([ByteBehind(fs, k)], stale, pattern);
  }

  /** The lines of a report: name, colon and record. */
  function ReportLines(report: seq<Entry>): seq<seq<byte>>
  {
    if report == [] then []
    else
      var last := report[|report| - 1];
      ReportLines(report[..|report| - 1])
      + seq(|last.records|, i requires 0 <= i < |last.records| => last.name + [58] + last.records[i])
  }

  /** The terminal shows exactly these lines, and stands at the start of the next one. */
  lemma {:induction false} ReportIsShown(report: seq<Entry>)
    requires forall j :: 0 <= j < |report| ==> Grep.NoNewline(report[j].name) && Grep.AllNoNewline(report[j].records)
    ensures Grep.Lines(RenderAll(report)) == ReportLines(report) + [[]]
  {
    hide Grep.Render, Grep.Lines;
    if report == [] {
      Grep.NoLines();
    } else {
      var most, last := report[..|report| - 1], report[|report| - 1];
      ReportIsShown(most);
      Grep.RenderedLines(last.name, last.records);
      Grep.LinesBehind(RenderAll(most), ReportLines(most), Grep.Render(last.name, last.records));
      var lines := Grep.Lines(Grep.Render(last.name, last.records));
      assert lines == lines[..|last.records|] + [[]];
    }
  }

  /** The main loop of grep: every entry of the directory, in its order.  The buffer of the search is
      not initialised; stale gives what it holds for each entry. */
  method GrepAll(fs: Image, pattern: seq<byte>, stale: nat -> Grep.Buffer) returns (ret: int, console: seq<byte>)
    requires IsSystem(fs) && AllSearchable(fs, Listed(fs.dentries)) && NUL !in pattern
    ensures ret == 0 && console == RenderAll(Report(fs, pattern, Listed(fs.dentries), stale))
  {
    hide Found, Grep.Render, IsSearchable, RenderAll, Report;
    var dir := new OpenDirectory(0);
    var buf := new byte[NAME_SIZE + 1](_ => NUL);
    ShownForNothing(fs, pattern, stale);
    console := [];
    while true
      invariant fresh(dir) && fresh(buf) && dir.filePos <= Listed(fs.dentries)
      invariant console == RenderAll(Report(fs, pattern, dir.filePos, stale))
      decreases Listed(fs.dentries) - dir.filePos
    {
      var i := dir.filePos;
      var cnt := dir.DirRead(fs, buf);
      if cnt == 0 {
        return 0, console;
      }
      var name := CString(buf[..NAME_SIZE]);
      assert name == NameOf(fs.dentries[i]);
      ShownForEntry(fs, pattern, i, stale);
      if name[0] == 46 {
        continue;
      }
      var printed;
      ret, printed := GrepFile(fs, name, pattern, stale(i));
      if ret != 0 {
        return 3, console;
      }
      console := console + printed;
    }
  }
}
