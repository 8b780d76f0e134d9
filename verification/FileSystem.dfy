/** The read-only file system (chapOS/student-distrib/file_sys_module.c). */
module FileSystem {
  import opened Bytes
  import opened Sizes

  const BLOCK_SIZE := 4096
  const MAX_BLOCKS := 1023
  const NAME_SIZE := 32
  const MAX_DENTRIES := 63

  /** A directory entry; the name has no terminator when it uses all 32 bytes. */
  datatype Dentry = Dentry(name: seq<byte>, fileType: int, inode: nat)

  /** An inode: the file's length and the words behind it, the first 1023 of which are its block
      numbers. */
  datatype Inode = Inode(length: nat, dataBlock: nat -> nat)

  /** The image in memory: the boot block's directory, the inodes, and the bytes behind them,
      addressed by block number and offset. */
  datatype Image = Image(dentries: seq<Dentry>, inodes: seq<Inode>, data: (nat, nat) -> byte)

  ghost predicate IsImage(fs: Image)
  {
    && |fs.dentries| == MAX_DENTRIES
    && (forall i :: 0 <= i < MAX_DENTRIES ==> |fs.dentries[i].name| == NAME_SIZE)
    && (forall i :: 0 <= i < |fs.inodes| ==> fs.inodes[i].length <= MAX_BLOCKS * BLOCK_SIZE)
  }

  // ------------------------------------------------------------- file contents

  /** The byte at a position of a file, found through its block numbers. */
  function ByteAt(fs: Image, inode: nat, pos: nat): byte
    requires inode < |fs.inodes|
  {
    fs.data(fs.inodes[inode].dataBlock(pos / BLOCK_SIZE), pos % BLOCK_SIZE)
  }

  function BytesAt(fs: Image, inode: nat, pos: nat, n: nat): (r: seq<byte>)
    requires inode < |fs.inodes|
    ensures |r| == n && forall i :: 0 <= i < n ==> r[i] == ByteAt(fs, inode, pos + i)
  {
    seq<byte>(n, i requires 0 <= i < n => ByteAt(fs, inode, pos + i))
  }

  lemma {:induction false} NextByte(fs: Image, inode: nat, pos: nat, n: nat)
    requires inode < |fs.inodes|
    ensures BytesAt(fs, inode, pos, n + 1) == BytesAt(fs, inode, pos, n) + [ByteAt(fs, inode, pos + n)]
  {
  }

  /** A file is one flat sequence of bytes. */
  function Content(fs: Image, inode: nat): (r: seq<byte>)
    requires inode < |fs.inodes|
    ensures |r| == fs.inodes[inode].length
  {
    BytesAt(fs, inode, 0, fs.inodes[inode].length)
  }

  /** Bytes 4096 * k to 4096 * k + 4095 of a file are those of its k-th data block, in their order. */
  lemma {:induction false} BlockIsPart(fs: Image, inode: nat, k: nat, i: nat)
    requires inode < |fs.inodes| && i < 4096 && 4096 * k + i < fs.inodes[inode].length
    ensures Content(fs, inode)[4096 * k + i] == fs.data(fs.inodes[inode].dataBlock(k), i)
  {
    assert (4096 * k + i) / 4096 == k && (4096 * k + i) % 4096 == i;
  }

  /** A file and the one byte that follows it in memory. */
  function Stream(fs: Image, inode: nat): (r: seq<byte>)
    requires inode < |fs.inodes|
    ensures |r| == fs.inodes[inode].length + 1
  {
    BytesAt(fs, inode, 0, fs.inodes[inode].length + 1)
  }

  /** How many bytes read_data delivers: it stops one byte behind the end of the file. */
  function Delivered(length: nat, pos: nat, n: nat): (r: nat)
  {
    if pos >= length then 0 else if n <= length + 1 - pos then n else length + 1 - pos
  }

  /** read_data: the block number and the offset in the block are advanced byte by byte. */
  method ReadData(fs: Image, inode: nat, offset: nat, buf: array<byte>, length: nat) returns (n: int)
    requires IsImage(fs)
    requires inode < |fs.inodes| ==> Delivered(fs.inodes[inode].length, offset, length) <= buf.Length
    modifies buf
    ensures inode >= |fs.inodes| ==> n == -1 && buf[..] == old(buf[..])
    ensures inode < |fs.inodes| ==> n == Delivered(fs.inodes[inode].length, offset, length)
                                    && buf[..n] == BytesAt(fs, inode, offset, n) && buf[n..] == old(buf[n..])
  {
    if inode >= |fs.inodes| {
      return -1;
    }
    var node := fs.inodes[inode];
    if offset >= node.length {
      return 0;
    }
    var curBlockIndex: nat := offset / BLOCK_SIZE;
    var locInBlock: nat := offset % BLOCK_SIZE;
    var curDataBlock := node.dataBlock(curBlockIndex);
    var i: nat := 0;
    ghost var start := buf[..];
    while i < length && i + offset <= node.length
      invariant 0 <= i <= length && i + offset <= node.length + 1
      invariant locInBlock <= BLOCK_SIZE && offset + i == curBlockIndex * BLOCK_SIZE + locInBlock
      invariant curDataBlock == node.dataBlock(curBlockIndex)
      invariant buf[..i] == BytesAt(fs, inode, offset, i)
      invariant buf[i..] == start[i..]
    {
      if locInBlock == BLOCK_SIZE {
        curBlockIndex := curBlockIndex + 1;
        locInBlock := 0;
        curDataBlock := node.dataBlock(curBlockIndex);
      }
      assert curBlockIndex == (offset + i) / BLOCK_SIZE && locInBlock == (offset + i) % BLOCK_SIZE;
      ghost var before := buf[..];
      buf[i] := fs.data(curDataBlock, locInBlock);
      assert buf[..] == before[i := ByteAt(fs, inode, offset + i)];
      SetNext(before, i, ByteAt(fs, inode, offset + i));
      NextByte(fs, inode, offset, i);
      assert start[i..][1..] == start[i + 1..];
      i := i + 1;
      locInBlock := locInBlock + 1;
    }
    n := i;
  }

  /** What read_data delivers is the file's own bytes, followed by at most one byte that is not
      the file's; there is none exactly when no more was asked for than was left. */
  lemma {:induction false} DeliversFile(fs: Image, inode: nat, pos: nat, n: nat)
    requires inode < |fs.inodes|
    ensures var length := fs.inodes[inode].length;
            var d := Delivered(length, pos, n);
            var own := if pos >= length then 0 else if n <= length - pos then n else length - pos;
            && own <= d <= own + 1
            && BytesAt(fs, inode, pos, d)[..own]
               == (if pos >= length then [] else Content(fs, inode)[pos..pos + own])
            && (d == own <==> pos >= length || n <= length - pos)
  {
  }

  /** The loader reads a file with its own length and so gets exactly the file. */
  lemma {:induction false} WholeFileIsExact(fs: Image, inode: nat)
    requires inode < |fs.inodes|
    ensures var length := fs.inodes[inode].length;
            BytesAt(fs, inode, 0, Delivered(length, 0, length)) == Content(fs, inode)
  {
  }

  // ------------------------------------------------------------- reading by descriptor

  /** An open file's position after reads of the given sizes, starting at pos. */
  function PosAfter(length: nat, pos: nat, sizes: seq<nat>): nat
  {
    if sizes == [] then pos
    else
      var before := PosAfter(length, pos, sizes[..|sizes| - 1]);
      before + Delivered(length, before, sizes[|sizes| - 1])
  }

  /** Everything these reads deliver, one after the other. */
  function AllDelivered(fs: Image, inode: nat, pos: nat, sizes: seq<nat>): seq<byte>
    requires inode < |fs.inodes|
  {
    if sizes == [] then []
    else
      var length := fs.inodes[inode].length;
      var before := PosAfter(length, pos, sizes[..|sizes| - 1]);
      AllDelivered(fs, inode, pos, sizes[..|sizes| - 1])
      + BytesAt(fs, inode, before, Delivered(length, before, sizes[|sizes| - 1]))
  }

  /** Successive reads deliver consecutive slices: their concatenation depends only on where the
      last one stopped, not on how the file was cut. */
  lemma {:induction false} ReadsAreConsecutive(fs: Image, inode: nat, sizes: seq<nat>)
    requires inode < |fs.inodes|
    ensures var pos := PosAfter(fs.inodes[inode].length, 0, sizes);
            pos <= fs.inodes[inode].length + 1 && AllDelivered(fs, inode, 0, sizes) == Stream(fs, inode)[..pos]
  {
    if sizes != [] {
      ReadsAreConsecutive(fs, inode, sizes[..|sizes| - 1]);
    }
  }

  function Sum(sizes: seq<nat>): nat
  {
    if sizes == [] then 0 else Sum(sizes[..|sizes| - 1]) + sizes[|sizes| - 1]
  }

  /** One of the reads stops exactly at position length. */
  ghost predicate StopsAt(length: nat, sizes: seq<nat>)
  {
    exists k :: 0 <= k <= |sizes| && Sum(sizes[..k]) == length
  }

  lemma {:induction false} SumGrows(sizes: seq<nat>, k: nat)
    requires k <= |sizes|
    ensures Sum(sizes[..k]) <= Sum(sizes)
  {
    if k < |sizes| {
      SumGrows(sizes[..|sizes| - 1], k);
      assert sizes[..|sizes| - 1][..k] == sizes[..k];
    } else {
      assert sizes[..k] == sizes;
    }
  }

  lemma {:induction false} StopsAtStep(length: nat, sizes: seq<nat>)
    ensures StopsAt(length, sizes) <==> Sum(sizes) == length || (sizes != [] && StopsAt(length, sizes[..|sizes| - 1]))
  {
    assert sizes[..|sizes|] == sizes;
    if sizes != [] {
      var before := sizes[..|sizes| - 1];
      assert forall k :: 0 <= k <= |before| ==> before[..k] == sizes[..k];
      if StopsAt(length, before) {
        var k :| 0 <= k <= |before| && Sum(before[..k]) == length;
        assert Sum(sizes[..k]) == length;
      }
      if StopsAt(length, sizes) && Sum(sizes) != length {
        var k :| 0 <= k <= |sizes| && Sum(sizes[..k]) == length;
        assert Sum(before[..k]) == length;
      }
    }
  }

  /** Where reads from the start of a file end: at the sum of their sizes while they stay inside
      the file, at its end when one of them stops there, and otherwise one byte behind it. */
  lemma {:induction false} WhereReadsEnd(length: nat, sizes: seq<nat>)
    ensures var pos := PosAfter(length, 0, sizes);
            && (Sum(sizes) <= length ==> pos == Sum(sizes))
            && (Sum(sizes) > length ==>
                  pos == if StopsAt(length, sizes) then length else length + 1)
  {
    StopsAtStep(length, sizes);
    if sizes != [] {
      var before := sizes[..|sizes| - 1];
      WhereReadsEnd(length, before);
      if StopsAt(length, before) {
        var k :| 0 <= k <= |before| && Sum(before[..k]) == length;
        SumGrows(before, k);
      }
    }
  }

  /** Reads of any sizes deliver a part of the file and nothing else if and only if they do not
      step over its end. */
  lemma {:induction false} ReadsAreExact(fs: Image, inode: nat, sizes: seq<nat>)
    requires inode < |fs.inodes|
    ensures var length := fs.inodes[inode].length;
            |AllDelivered(fs, inode, 0, sizes)| <= length
            <==> Sum(sizes) <= length || StopsAt(length, sizes)
    ensures |AllDelivered(fs, inode, 0, sizes)| <= fs.inodes[inode].length ==>
              AllDelivered(fs, inode, 0, sizes) <= Content(fs, inode)
  {
    ReadsAreConsecutive(fs, inode, sizes);
    WhereReadsEnd(fs.inodes[inode].length, sizes);
  }

  /** One open file of a process. */
  class OpenFile {
    const inode: nat
    var filePos: nat

    constructor (inode: nat, filePos: nat)
      ensures this.inode == inode && this.filePos == filePos
    {
      this.inode, this.filePos := inode, filePos;
    }

    /** file_read; read_data takes the size as an unsigned word. */
    method FileRead(fs: Image, buf: array<byte>, nbytes: int) returns (n: int)
      requires IsImage(fs) && filePos < WORD32
      requires inode < |fs.inodes| ==> Delivered(fs.inodes[inode].length, filePos, nbytes % WORD32) <= buf.Length
      modifies buf, this
      ensures inode >= |fs.inodes| ==> n == -1 && filePos == (old(filePos) + WORD32 - 1) % WORD32
      ensures inode < |fs.inodes| ==> n == Delivered(fs.inodes[inode].length, old(filePos), nbytes % WORD32)
                                      && buf[..n] == BytesAt(fs, inode, old(filePos), n)
                                      && filePos == old(filePos) + n < WORD32
    {
      n := ReadData(fs, inode, filePos, buf, nbytes % WORD32);
      filePos := (filePos + n + WORD32) % WORD32;
    }

    /** Any series of reads into a buffer that is large enough. */
    method FileReads(fs: Image, buf: array<byte>, sizes: seq<nat>) returns (bytes: seq<byte>)
      requires IsImage(fs) && inode < |fs.inodes| && filePos == 0
      requires forall k :: 0 <= k < |sizes| ==> sizes[k] <= buf.Length && sizes[k] < WORD32
      modifies buf, this
      ensures bytes == AllDelivered(fs, inode, 0, sizes)
    {
      bytes := [];
      for k := 0 to |sizes|
        invariant filePos == PosAfter(fs.inodes[inode].length, 0, sizes[..k]) < WORD32
        invariant bytes == AllDelivered(fs, inode, 0, sizes[..k])
      {
        assert sizes[..k + 1][..k] == sizes[..k];
        var n := FileRead(fs, buf, sizes[k]);
        bytes := bytes + buf[..n];
      }
      assert sizes[..|sizes|] == sizes;
    }
  }

  // ------------------------------------------------------------- the directory

  /** The name of an entry as a C string of at most 32 bytes. */
  function NameOf(entry: Dentry): seq<byte>
  {
    CString(entry.name)
  }

  /** strncmp(a, b, 32) == 0 for a C string a and a field b of 32 bytes. */
  method NamesEqual(a: seq<byte>, b: seq<byte>) returns (same: bool)
    requires NUL !in a && |b| == NAME_SIZE
    ensures same <==> Cut(a) == CString(b)
    ensures same <==> CString(b) == if |a| < 32 then a else a[..32]
  {
    var i := 0;
    while i < NAME_SIZE
      invariant 0 <= i <= NAME_SIZE && i <= |a|
      invariant forall k :: 0 <= k < i ==> a[k] == b[k] != NUL
    {
      var c := if i < |a| then a[i] else NUL;
      if c != b[i] {
        DifferAt(a, b, i);
        return false;
      }
      if c == NUL {
        CStringIs(b, i);
        assert Cut(a) == b[..i];
        return true;
      }
      i := i + 1;
    }
    CStringIs(b, i);
    assert Cut(a) == b[..i];
    same := true;
  }

  /** At most 32 bytes of a name take part in a comparison. */
  function Cut(name: seq<byte>): seq<byte>
  {
    if |name| <= NAME_SIZE then name else name[..NAME_SIZE]
  }

  lemma {:induction false} DifferAt(a: seq<byte>, b: seq<byte>, i: nat)
    requires NUL !in a && |b| == NAME_SIZE && i < NAME_SIZE && i <= |a|
    requires forall k :: 0 <= k < i ==> a[k] == b[k] != NUL
    requires (if i < |a| then a[i] else NUL) != b[i]
    ensures Cut(a) != CString(b)
  {
    var s := CString(b);
    assert forall k :: 0 <= k < |s| ==> s[k] == b[k] != NUL;
    if i < |a| {
      assert Cut(a)[i] == a[i];
    }
  }

  /** The first entry with a name, if there is one. */
  function Lookup(dentries: seq<Dentry>, name: seq<byte>): (k: nat)
    ensures k <= |dentries|
    ensures k < |dentries| ==> NameOf(dentries[k]) == Cut(name)
    ensures forall i :: 0 <= i < k ==> NameOf(dentries[i]) != Cut(name)
  {
    if dentries == [] || NameOf(dentries[0]) == Cut(name) then 0
    else
      var k := 1 + Lookup(dentries[1..], name);
      assert forall i :: 0 < i < |dentries| ==> dentries[i] == dentries[1..][i - 1];
      k
  }

  lemma {:induction false} LookupIs(dentries: seq<Dentry>, name: seq<byte>, k: nat)
    requires k <= |dentries| && (k < |dentries| ==> NameOf(dentries[k]) == Cut(name))
    requires forall i :: 0 <= i < k ==> NameOf(dentries[i]) != Cut(name)
    ensures Lookup(dentries, name) == k
  {
    if k > 0 {
      LookupIs(dentries[1..], name, k - 1);
    }
  }

  /** strncpy into a field of 32 bytes: the rest is filled with NULs. */
  function Padded(name: seq<byte>): (r: seq<byte>)
    ensures |r| == NAME_SIZE
    ensures NUL !in name ==> CString(r) == Cut(name)
    ensures forall i :: |name| <= i < NAME_SIZE ==> r[i] == NUL
  {
    var r := seq<byte>(NAME_SIZE, i requires 0 <= i < NAME_SIZE => if i < |name| then name[i] else NUL);
    assert NUL !in name ==> CString(r) == Cut(name) by {
      if NUL !in name {
        CStringIs(r, |Cut(name)|);
        assert r[..|Cut(name)|] == Cut(name);
      }
    }
    r
  }

  /** read_dentry_by_name */
  method ReadDentryByName(fs: Image, fname: seq<byte>) returns (ret: int, dentry: Dentry)
    requires IsImage(fs) && NUL !in fname
    ensures var k := Lookup(fs.dentries, fname);
            if k < MAX_DENTRIES
            then ret == 0 && dentry == Dentry(Padded(fname), fs.dentries[k].fileType, fs.dentries[k].inode)
            else ret == -1
  {
    ret, dentry := -1, Dentry([], 0, 0);
    var i := 0;
    while ret == -1 && i < MAX_DENTRIES
      invariant 0 <= i <= MAX_DENTRIES
      invariant ret == -1 ==> forall k :: 0 <= k < i ==> NameOf(fs.dentries[k]) != Cut(fname)
      invariant ret != -1 ==> ret == 0 && i > 0 && Lookup(fs.dentries, fname) == i - 1
      invariant ret != -1 ==> dentry == Dentry(Padded(fname), fs.dentries[i - 1].fileType, fs.dentries[i - 1].inode)
    {
      var same := NamesEqual(fname, fs.dentries[i].name);
      if same {
        LookupIs(fs.dentries, fname, i);
        ret := 0;
        dentry := Dentry(Padded(fname), fs.dentries[i].fileType, fs.dentries[i].inode);
      }
      i := i + 1;
    }
    if ret == -1 {
      LookupIs(fs.dentries, fname, MAX_DENTRIES);
    }
  }

  /** read_dentry_by_index */
  method ReadDentryByIndex(fs: Image, index: nat) returns (ret: int, dentry: Dentry)
    requires IsImage(fs)
    ensures if index < MAX_DENTRIES && NameOf(fs.dentries[index]) != []
            then ret == 0 && dentry == fs.dentries[index].(name := Padded(NameOf(fs.dentries[index])))
            else ret == -1
  {
    dentry := Dentry([], 0, 0);
    if index >= MAX_DENTRIES {
      return -1, dentry;
    }
    if fs.dentries[index].name[0] == NUL {
      return -1, dentry;
    }
    var entry := fs.dentries[index];
    return 0, Dentry(Padded(CString(entry.name)), entry.fileType, entry.inode);
  }

  /** How many entries a listing shows: those before the first empty one. */
  function Listed(dentries: seq<Dentry>): (n: nat)
    ensures n <= |dentries|
    ensures forall i :: 0 <= i < n ==> NameOf(dentries[i]) != []
    ensures n < |dentries| ==> NameOf(dentries[n]) == []
  {
    if dentries == [] || NameOf(dentries[0]) == [] then 0
    else
      var n := 1 + Listed(dentries[1..]);
      assert forall i :: 0 < i < |dentries| ==> dentries[i] == dentries[1..][i - 1];
      n
  }

  /** The names of a listing, in order, as fields of 32 bytes. */
  function Names(fs: Image, n: nat): (r: seq<seq<byte>>)
    requires n <= |fs.dentries|
    ensures |r| == n && forall i :: 0 <= i < n ==> r[i] == Padded(NameOf(fs.dentries[i]))
  {
    seq(n, i requires 0 <= i < n => Padded(NameOf(fs.dentries[i])))
  }

  lemma {:induction false} NamesFrom(fs: Image, n: nat)
    requires n <= |fs.dentries|
    ensures Names(fs, 0) == []
    ensures n < |fs.dentries| ==> Names(fs, n + 1) == Names(fs, n) + [Padded(NameOf(fs.dentries[n]))]
  {
    hide Padded, NameOf;
  }

  class OpenDirectory {
    var filePos: nat

    constructor (filePos: nat)
      ensures this.filePos == filePos
    {
      this.filePos := filePos;
    }

    /** dir_read: one name, or 0 and a restart behind the last one. */
    method DirRead(fs: Image, buf: array<byte>) returns (n: int)
      requires IsImage(fs) && buf.Length >= NAME_SIZE
      modifies this, buf
      ensures if old(filePos) < MAX_DENTRIES && NameOf(fs.dentries[old(filePos)]) != []
              then && n == NAME_SIZE && filePos == old(filePos) + 1
                   && buf[..NAME_SIZE] == Padded(NameOf(fs.dentries[old(filePos)]))
              else n == 0 && filePos == 0 && buf[..] == old(buf[..])
    {
      var test, entry := ReadDentryByIndex(fs, filePos);
      if test == 0 {
        for i := 0 to NAME_SIZE
          invariant filePos == old(filePos)
          invariant buf[..i] == entry.name[..i]
        {
          buf[i] := entry.name[i];
        }
        assert entry.name[..NAME_SIZE] == entry.name;
        filePos := filePos + 1;
        return NAME_SIZE;
      } else {
        filePos := 0;
        return 0;
      }
    }

    /** Reading until 0 is returned lists the directory; the next read starts again. */
    method ListAll(fs: Image, buf: array<byte>) returns (names: seq<seq<byte>>)
      requires IsImage(fs) && buf.Length >= NAME_SIZE && filePos == 0
      modifies this, buf
      ensures names == Names(fs, Listed(fs.dentries)) && filePos == 0
    {
      hide Padded, NameOf, Names;
      NamesFrom(fs, 0);
      names := [];
      while true
        invariant filePos <= Listed(fs.dentries) && names == Names(fs, filePos)
        decreases Listed(fs.dentries) - filePos
      {
        var n := DirRead(fs, buf);
        if n == 0 {
          return;
        }
        NamesFrom(fs, filePos - 1);
        names := names + [buf[..NAME_SIZE]];
      }
    }
  }

  /** Looking up a listed name finds its own entry exactly when no earlier entry has that name;
      the name may use all 32 bytes. */
  lemma {:induction false} ListedNameIsFound(fs: Image, i: nat)
    requires IsImage(fs) && i < Listed(fs.dentries)
    ensures var name := CString(Names(fs, Listed(fs.dentries))[i]);
            Lookup(fs.dentries, name) == i
            <==> forall k :: 0 <= k < i ==> NameOf(fs.dentries[k]) != NameOf(fs.dentries[i])
  {
    var name := NameOf(fs.dentries[i]);
    var listed := CString(Names(fs, Listed(fs.dentries))[i]);
    assert listed == Cut(name) == name == Cut(listed);
    if forall k :: 0 <= k < i ==> NameOf(fs.dentries[k]) != name {
      LookupIs(fs.dentries, listed, i);
    }
  }
}
