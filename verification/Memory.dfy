/** The optimized memory routines of the kernel (chapOS/student-distrib/lib.c).  Memory is an array;
    its indices are the addresses. */
module Memory {
  import opened Bytes

  /** The k-th byte of a 32-bit register, least significant first. */
  function ByteOf(eax: nat, k: nat): byte
  {
    if k == 0 then eax % 0x100 else ByteOf(eax / 0x100, k - 1)
  }

  lemma {:induction false} LowByte(high: nat, c: byte)
    ensures (high * 0x100 + c) % 0x100 == c && (high * 0x100 + c) / 0x100 == high
  {
  }

  /** d << 24 | c << 16 | b << 8 | a has the bytes a, b, c, d, lowest first. */
  lemma {:induction false} RegisterBytes(a: byte, b: byte, c: byte, d: byte, eax: nat)
    requires eax == d * 0x100_0000 + c * 0x1_0000 + b * 0x100 + a
    ensures ByteOf(eax, 0) == a && ByteOf(eax, 1) == b && ByteOf(eax, 2) == c && ByteOf(eax, 3) == d
  {
    var two: nat := d * 0x100 + c;
    var three: nat := two * 0x100 + b;
    assert eax == three * 0x100 + a;
    LowByte(three, a);
    LowByte(two, b);
    LowByte(d, c);
    assert ByteOf(d, 0) == d && ByteOf(two, 1) == ByteOf(d, 0);
    assert ByteOf(three, 1) == ByteOf(two, 0) && ByteOf(three, 2) == ByteOf(two, 1);
    assert ByteOf(eax, 1) == ByteOf(three, 0) && ByteOf(eax, 2) == ByteOf(three, 1);
    assert ByteOf(eax, 3) == ByteOf(three, 2);
  }

  /** c << 24 | c << 16 | c << 8 | c has the byte c in every place. */
  lemma {:induction false} Replicated(c: byte, eax: nat)
    requires eax == c * 0x100_0000 + c * 0x1_0000 + c * 0x100 + c
    ensures forall k :: 0 <= k < 4 ==> ByteOf(eax, k) == c
  {
    RegisterBytes(c, c, c, c, eax);
    hide ByteOf;
    forall k | 0 <= k < 4
      ensures ByteOf(eax, k) == c
    {
      assert k == 0 || k == 1 || k == 2 || k == 3;
    }
  }

  // ------------------------------------------------------------- memset

  /** stosl repeated count times */
  method RepStosl(mem: array<byte>, edi: nat, eax: nat, count: nat)
    requires edi + 4 * count <= mem.Length
    modifies mem
    ensures forall i :: 0 <= i < mem.Length ==>
              mem[i] == if edi <= i < edi + 4 * count then ByteOf(eax, (i - edi) % 4) else old(mem[i])
  {
    hide ByteOf;
    for j := 0 to count
      invariant forall i :: 0 <= i < mem.Length ==>
                  mem[i] == if edi <= i < edi + 4 * j then ByteOf(eax, (i - edi) % 4) else old(mem[i])
    {
      var at := edi + 4 * j;
      mem[at] := ByteOf(eax, 0);
      mem[at + 1] := ByteOf(eax, 1);
      mem[at + 2] := ByteOf(eax, 2);
      mem[at + 3] := ByteOf(eax, 3);
    }
  }

  /** The byte loops: up to an address that is a multiple of four, or to the end. */
  method StoreBytes(mem: array<byte>, edi: nat, al: byte, n: nat, align: bool) returns (done: nat)
    requires edi + n <= mem.Length
    modifies mem
    ensures done <= n && (done == n || (align && (edi + done) % 4 == 0))
    ensures forall i :: 0 <= i < mem.Length ==> mem[i] == if edi <= i < edi + done then al else old(mem[i])
  {
    done := 0;
    while done < n && !(align && (edi + done) % 4 == 0)
      invariant done <= n
      invariant forall i :: 0 <= i < mem.Length ==> mem[i] == if edi <= i < edi + done then al else old(mem[i])
    {
      mem[edi + done] := al;
      done := done + 1;
    }
  }

  /** memset: bytes up to a multiple of four, then dwords, then the remaining bytes. */
  method Memset(mem: array<byte>, s: nat, c: int, n: nat)
    requires s + n <= mem.Length
    modifies mem
    ensures forall i :: 0 <= i < mem.Length ==> mem[i] == if s <= i < s + n then c % 0x100 else old(mem[i])
  {
    var al: byte := c % 0x100;
    var eax: nat := al * 0x100_0000 + al * 0x1_0000 + al * 0x100 + al;
    Replicated(al, eax);
    hide ByteOf;
    var done := StoreBytes(mem, s, al, n, true);
    if done == n {
      return;
    }
    var dwords: nat, bytes: nat := (n - done) / 4, (n - done) % 4;
    RepStosl(mem, s + done, eax, dwords);
    assert forall i :: 0 <= i < mem.Length ==> mem[i] == if s <= i < s + done + 4 * dwords then al else old(mem[i]);
    var _ := StoreBytes(mem, s + done + 4 * dwords, al, bytes, false);
  }

  // ------------------------------------------------------------- memcpy

  /** mem holds at dest what before held at src, n bytes of it; everything else is as before. */
  ghost predicate IsCopied(mem: array<byte>, before: seq<byte>, dest: nat, src: nat, n: nat)
    reads mem
  {
    && mem.Length == |before| && dest + n <= |before| && src + n <= |before|
    && (forall i :: dest <= i < dest + n ==> mem[i] == before[i - dest + src])
    && (forall i :: 0 <= i < mem.Length && !(dest <= i < dest + n) ==> mem[i] == before[i])
  }

  /** movsl repeated count times, after done bytes were copied */
  method RepMovsl(mem: array<byte>, dest: nat, src: nat, done: nat, count: nat, ghost before: seq<byte>)
    requires IsCopied(mem, before, dest, src, done)
    requires dest + done + 4 * count <= mem.Length && src + done + 4 * count <= mem.Length
    requires dest <= src || src + done + 4 * count <= dest
    modifies mem
    ensures IsCopied(mem, before, dest, src, done + 4 * count)
  {
    for j := 0 to count
      invariant IsCopied(mem, before, dest, src, done + 4 * j)
    {
      var edi, esi := dest + done + 4 * j, src + done + 4 * j;
      mem[edi], mem[edi + 1], mem[edi + 2], mem[edi + 3] := mem[esi], mem[esi + 1], mem[esi + 2], mem[esi + 3];
    }
  }

  /** The byte loops of memcpy. */
  method CopyBytes(mem: array<byte>, dest: nat, src: nat, start: nat, n: nat, align: bool, ghost before: seq<byte>)
    returns (done: nat)
    requires start <= n && dest + n <= mem.Length && src + n <= mem.Length
    requires IsCopied(mem, before, dest, src, start)
    requires dest <= src || src + n <= dest
    modifies mem
    ensures done <= n && (done == n || (align && (dest + done) % 4 == 0))
    ensures IsCopied(mem, before, dest, src, done)
  {
    done := start;
    while done < n && !(align && (dest + done) % 4 == 0)
      invariant done <= n && IsCopied(mem, before, dest, src, done)
    {
      mem[dest + done] := mem[src + done];
      done := done + 1;
    }
  }

  /** memcpy: the same three parts.  It delivers the original bytes also when the areas overlap,
      as long as the destination is not above the source. */
  method Memcpy(mem: array<byte>, dest: nat, src: nat, n: nat)
    requires dest + n <= mem.Length && src + n <= mem.Length
    requires dest <= src || src + n <= dest
    modifies mem
    ensures IsCopied(mem, old(mem[..]), dest, src, n)
  {
    ghost var before := mem[..];
    var done := CopyBytes(mem, dest, src, 0, n, true, before);
    if done == n {
      return;
    }
    var dwords: nat := (n - done) / 4;
    RepMovsl(mem, dest, src, done, dwords, before);
    var _ := CopyBytes(mem, dest, src, done + 4 * dwords, n, false, before);
  }

  /** memmove: byte by byte, upwards if the source is not below the destination, else downwards;
      right for every overlap. */
  method Memmove(mem: array<byte>, dest: nat, src: nat, n: nat)
    requires dest + n <= mem.Length && src + n <= mem.Length
    modifies mem
    ensures IsCopied(mem, old(mem[..]), dest, src, n)
  {
    ghost var before := mem[..];
    var edi: int, esi: int, ecx: int := dest, src, n;
    if esi >= edi {
      while ecx != 0
        invariant 0 <= ecx <= n && edi == dest + (n - ecx) && esi == src + (n - ecx)
        invariant IsCopied(mem, before, dest, src, n - ecx)
        decreases ecx
      {
        mem[edi] := mem[esi];
        edi, esi, ecx := edi + 1, esi + 1, ecx - 1;
      }
    } else {
      esi, edi := esi + ecx - 1, edi + ecx - 1;
      while ecx != 0
        invariant 0 <= ecx <= n && edi == dest + ecx - 1 && esi == src + ecx - 1
        invariant IsCopied(mem, before, dest + ecx, src + ecx, n - ecx)
        decreases ecx
      {
        mem[edi] := mem[esi];
        edi, esi, ecx := edi - 1, esi - 1, ecx - 1;
      }
    }
  }
}
