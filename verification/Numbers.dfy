/** Number conversion: itoa, strrev and the %#x case of printf (chapOS/student-distrib/lib.c). */
module Numbers {
  import opened Bytes
  import opened Sizes

  /** The lookup table "0123456789ABCDEFGHIJKLMNOPQRSTUVWXYZ". */
  function Digit(d: int): byte
    requires 0 <= d < 36
  {
    if d < 10 then 48 + d else 55 + d
  }

  /** What a reader takes a digit for; 36 if it is none. */
  function DigitValue(c: byte): (d: int)
    ensures 0 <= d <= 36
  {
    if 48 <= c < 58 then c - 48 else if 65 <= c < 91 then c - 55 else 36
  }

  /** The number that a digit string denotes. */
  function Value(s: seq<byte>, radix: int): int
  {
    if s == [] then 0 else Value(s[..|s| - 1], radix) * radix + DigitValue(s[|s| - 1])
  }

  predicate IsNumeral(s: seq<byte>, radix: int)
  {
    s != [] && forall i :: 0 <= i < |s| ==> DigitValue(s[i]) < radix
  }

  lemma {:induction false} SmallerQuotient(v: nat, radix: int)
    requires radix >= 2
    ensures 0 <= 2 * (v / radix) <= v
  {
    var q := v / radix;
    assert q * radix <= v;
    assert q * radix == q * 2 + q * (radix - 2);
  }

  /** The digits of a number, least significant first, as the loop of itoa produces them. */
  function LowDigits(v: nat, radix: int): (r: seq<byte>)
    requires 2 <= radix <= 36
    ensures NUL !in r && (v > 0 ==> r != [])
  {
    if v == 0 then [] else [Digit(v % radix)] + LowDigits(v / radix, radix)
  }

  function Reversed(s: seq<byte>): (r: seq<byte>)
    ensures |r| == |s| && forall i :: 0 <= i < |s| ==> r[i] == s[|s| - 1 - i]
  {
    seq<byte>(|s|, i requires 0 <= i < |s| => s[|s| - 1 - i])
  }

  /** The string that itoa leaves. */
  function Digits(v: nat, radix: int): (r: seq<byte>)
    requires 2 <= radix <= 36
    ensures NUL !in r
  {
    if v == 0 then [Digit(0)] else Reversed(LowDigits(v, radix))
  }

  lemma {:induction false} ReversedDigits(v: nat, radix: int)
    requires 2 <= radix <= 36 && v > 0
    ensures LowDigits(v, radix) != []
    ensures Value(Reversed(LowDigits(v, radix)), radix) == v
    ensures IsNumeral(Reversed(LowDigits(v, radix)), radix)
    ensures Reversed(LowDigits(v, radix))[0] != Digit(0)
  {
    hide Value, IsNumeral;
    SmallerQuotient(v, radix);
    var q, d := v / radix, v % radix;
    var high := Reversed(LowDigits(q, radix));
    assert Reversed(LowDigits(v, radix)) == high + [Digit(d)];
    OneMoreDigit(high, d, radix);
    assert q * radix + d == v;
    if q > 0 {
      ReversedDigits(q, radix);
    }
  }

  lemma {:induction false} OneMoreDigit(high: seq<byte>, d: int, radix: int)
    requires 0 <= d < radix <= 36
    ensures Value(high + [Digit(d)], radix) == Value(high, radix) * radix + d
    ensures high == [] ==> Value(high, radix) == 0
    ensures high == [] || IsNumeral(high, radix) ==> IsNumeral(high + [Digit(d)], radix)
  {
    assert (high + [Digit(d)])[..|high|] == high;
  }

  /** Reading the string back gives the number; it has only digits of the radix and no leading
      zero unless it is "0". */
  lemma {:induction false} DigitsReadBack(v: nat, radix: int)
    requires 2 <= radix <= 36
    ensures Value(Digits(v, radix), radix) == v && IsNumeral(Digits(v, radix), radix)
    ensures Digits(v, radix)[0] == Digit(0) ==> Digits(v, radix) == [Digit(0)]
  {
    if v == 0 {
      assert [Digit(0)][..0] == [];
    } else {
      ReversedDigits(v, radix);
    }
  }

  /** In the characters of the table: 0 to 9 are the digits, 10 to 35 the capital letters, and a longer
      number is what precedes its last digit and that digit. */
  lemma {:induction false} DigitsOne(v: nat, radix: int)
    requires 2 <= radix <= 36
    ensures v < radix ==> Digits(v, radix) == [if v < 10 then '0' as byte + v else 'A' as byte + v - 10]
    ensures v >= radix ==> Digits(v, radix) == Digits(v / radix, radix) + Digits(v % radix, radix)
  {
    var q, d := v / radix, v % radix;
    DigitsMore(v, radix);
    DigitsMore(q, radix);
    DigitsMore(d, radix);
    Remainder(v, radix);
    hide LowDigits, Digits, Reversed, Digit;
    assert [] + [Digit(d)] == [Digit(d)];
    if v < radix {
      DigitIs(v);
    } else {
      assert Digits(v, radix) == Reversed(LowDigits(q, radix)) + [Digit(d)];
    }
  }

  lemma {:induction false} DigitIs(d: nat)
    requires d < 36
    ensures Digit(d) == if d < 10 then '0' as byte + d else 'A' as byte + d - 10
  {
  }

  lemma {:induction false} Remainder(v: nat, radix: int)
    requires radix >= 2
    ensures 0 <= v % radix < radix && v % radix / radix == 0 && v % radix % radix == v % radix
    ensures if v < radix then v / radix == 0 && v % radix == v else v / radix > 0
  {
    SmallerQuotient(v, radix);
  }

  lemma {:induction false} DigitsMore(v: nat, radix: int)
    requires 2 <= radix <= 36
    ensures LowDigits(0, radix) == [] && Reversed([]) == []
    ensures v == 0 ==> Digits(v, radix) == [Digit(0)]
    ensures v > 0 ==> && v / radix >= 0
                      && Digits(v, radix) == Reversed(LowDigits(v, radix))
                      && Digits(v, radix) == Reversed(LowDigits(v / radix, radix)) + [Digit(v % radix)]
  {
    SmallerQuotient(v, radix);
    if v > 0 {
      assert LowDigits(v, radix) == [Digit(v % radix)] + LowDigits(v / radix, radix);
      ReversedMore(Digit(v % radix), LowDigits(v / radix, radix));
    }
  }

  lemma {:induction false} ReversedMore(c: byte, s: seq<byte>)
    ensures Reversed([c] + s) == Reversed(s) + [c]
  {
  }

  function Pow2(n: nat): nat
  {
    if n == 0 then 1 else 2 * Pow2(n - 1)
  }

  lemma {:induction false} FewDigits(v: nat, radix: int, n: nat)
    requires 2 <= radix <= 36 && v < Pow2(n)
    ensures |LowDigits(v, radix)| <= n
  {
    if v > 0 {
      SmallerQuotient(v, radix);
      FewDigits(v / radix, radix, n - 1);
    }
  }

  lemma {:induction false} FewHexDigits(v: nat, n: nat)
    requires v < Pow2(4 * n)
    ensures |LowDigits(v, 16)| <= n
  {
    if v > 0 {
      assert Pow2(4 * n) == 16 * Pow2(4 * (n - 1)) by {
        assert Pow2(4 * n) == 2 * Pow2(4 * n - 1) == 4 * Pow2(4 * n - 2) == 8 * Pow2(4 * n - 3);
      }
      FewHexDigits(v / 16, n - 1);
    }
  }

  lemma WordIsPow2()
    ensures Pow2(32) == WORD32
  {
    assert Pow2(8) == 0x100;
    assert Pow2(16) == 0x1_0000;
    assert Pow2(24) == 0x100_0000;
  }

  /** strlen */
  method Strlen(s: array<byte>, off: nat) returns (len: nat)
    requires exists i :: off <= i < s.Length && s[i] == NUL
    ensures off + len < s.Length && s[off + len] == NUL && NUL !in s[off..off + len]
  {
    ghost var end :| off <= end < s.Length && s[end] == NUL;
    len := 0;
    while s[off + len] != NUL
      invariant off + len <= end && NUL !in s[off..off + len]
      decreases end - len
    {
      len := len + 1;
    }
  }

  /** The loop of strrev: swaps from both ends. */
  method SwapEnds(s: array<byte>, off: nat, n: nat)
    requires off + n <= s.Length
    modifies s
    ensures s[off..off + n] == Reversed(old(s[off..off + n]))
    ensures forall i :: 0 <= i < s.Length && !(off <= i < off + n) ==> s[i] == old(s[i])
  {
    ghost var text := s[off..off + n];
    var beg: int, end: int := 0, n as int - 1;
    assert text == HalfReversed(text, 0);
    while beg < end
      invariant 0 <= beg && beg + end == n - 1 && end >= -1
      invariant s[off..off + n] == HalfReversed(text, beg)
      invariant forall i :: 0 <= i < s.Length && !(off <= i < off + n) ==> s[i] == old(s[i])
    {
      ghost var half := HalfReversed(text, beg);
      var tmp := s[off + end];
      assert tmp == half[end] && s[off + beg] == half[beg];
      s[off + end] := s[off + beg];
      assert s[off..off + n] == half[end := half[beg]];
      s[off + beg] := tmp;
      assert s[off..off + n] == half[end := half[beg]][beg := half[end]];
      beg, end := beg + 1, end - 1;
    }
    assert s[off..off + n] == Reversed(text);
  }

  /** A text whose outer k bytes on either side have changed places. */
  ghost function HalfReversed(text: seq<byte>, k: nat): (r: seq<byte>)
    ensures |r| == |text|
    ensures forall i :: 0 <= i < |text| ==> r[i] == if k <= i <= |text| - 1 - k then text[i] else text[|text| - 1 - i]
  {
    seq<byte>(|text|, i requires 0 <= i < |text| => if k <= i <= |text| - 1 - k then text[i] else text[|text| - 1 - i])
  }

  /** strrev: reverses the string at s + off in place. */
  method Strrev(s: array<byte>, off: nat, ghost n: nat)
    requires off + n < s.Length && s[off + n] == NUL && NUL !in s[off..off + n]
    modifies s
    ensures s[off..off + n] == Reversed(old(s[off..off + n]))
    ensures forall i :: 0 <= i < s.Length && !(off <= i < off + n) ==> s[i] == old(s[i])
  {
    var len := Strlen(s, off);
    assert s[off..][..n] == s[off..off + n] && s[off..][..len] == s[off..off + len];
    SameEnd(s[off..], len, n);
    SwapEnds(s, off, len);
  }

  lemma {:induction false} SameEnd(s: seq<byte>, a: nat, b: nat)
    requires a < |s| && b < |s| && s[a] == NUL && s[b] == NUL
    requires NUL !in s[..a] && NUL !in s[..b]
    ensures a == b
  {
    CStringIs(s, a);
    CStringIs(s, b);
  }

  /** itoa of a 32-bit value into the buffer at buf + off. */
  method Itoa(value: nat, buf: array<byte>, off: nat, radix: int)
    requires value < WORD32 && 2 <= radix <= 36 && off + 33 <= buf.Length
    modifies buf
    ensures var digits := Digits(value, radix);
            && |digits| <= 32 && buf[off..off + |digits|] == digits && buf[off + |digits|] == NUL
    ensures forall i :: 0 <= i < off ==> buf[i] == old(buf[i])
  {
    if value == 0 {
      buf[off] := 48;
      buf[off + 1] := NUL;
      return;
    }
    var newbuf := StoreLowDigits(value, buf, off, radix);
    Strrev(buf, off, newbuf - off);
  }

  lemma {:induction false} StoredBehind(before: seq<byte>, after: seq<byte>, off: nat, k: nat, b: byte)
    requires off <= k < |before| && after == before[k := b]
    ensures after[off..k + 1] == before[off..k] + [b] && after[..off] == before[..off]
  {
  }

  lemma {:induction false} DigitsFit(value: nat, radix: int)
    requires value < WORD32 && 2 <= radix <= 36
    ensures |LowDigits(value, radix)| <= 32
  {
    WordIsPow2();
    FewDigits(value, radix, 32);
  }

  /** The division loop of itoa. */
  method StoreLowDigits(value: nat, buf: array<byte>, off: nat, radix: int) returns (newbuf: nat)
    requires 0 < value < WORD32 && 2 <= radix <= 36 && off + 33 <= buf.Length
    modifies buf
    ensures off < newbuf <= off + 32 && buf[off..newbuf] == LowDigits(value, radix) && buf[newbuf] == NUL
    ensures buf[..off] == old(buf[..off])
  {
    ghost var digits := LowDigits(value, radix);
    hide LowDigits, Digit;
    DigitsFit(value, radix);
    assert digits[..0] == [] && digits[0..] == digits;
    var newval: nat := value;
    newbuf := off;
    while newval > 0
      invariant off <= newbuf <= off + |digits|
      invariant buf[off..newbuf] == digits[..newbuf - off] && digits[newbuf - off..] == LowDigits(newval, radix)
      invariant buf[..off] == old(buf[..off])
      decreases newval
    {
      ghost var before := buf[..];
      SmallerQuotient(newval, radix);
      NextDigit(digits, newbuf - off, newval, radix);
      buf[newbuf] := Digit(newval % radix);
      StoredBehind(before, buf[..], off, newbuf, Digit(newval % radix));
      newbuf := newbuf + 1;
      newval := newval / radix;
    }
    NoDigits(radix);
    assert newbuf - off == |digits| && digits[..|digits|] == digits;
    ghost var before := buf[..];
    buf[newbuf] := NUL;
    StoredBehind(before, buf[..], off, newbuf, NUL);
    assert buf[off..newbuf] == before[off..newbuf];
  }

  /** The next digit of a number and the digits behind it. */
  lemma {:induction false} NextDigit(digits: seq<byte>, k: nat, v: nat, radix: int)
    requires 2 <= radix <= 36 && v > 0 && k <= |digits| && digits[k..] == LowDigits(v, radix)
    ensures k < |digits| && digits[k] == Digit(v % radix)
    ensures digits[..k + 1] == digits[..k] + [Digit(v % radix)] && digits[k + 1..] == LowDigits(v / radix, radix)
  {
    assert digits[k..][0] == digits[k] && digits[k..][1..] == digits[k + 1..];
  }

  lemma {:induction false} NoDigits(radix: int)
    requires 2 <= radix <= 36
    ensures LowDigits(0, radix) == []
  {
  }

  function Zeros(n: nat): (r: seq<byte>)
    ensures |r| == n
  {
    seq(n, _ => 48)
  }

  /** The %#x case of printf: what is printed. */
  method PrintHexAligned(value: nat) returns (printed: seq<byte>)
    requires value < WORD32
    ensures |Digits(value, 16)| <= 8 && printed == Zeros(8 - |Digits(value, 16)|) + Digits(value, 16)
  {
    WordIsPow2();
    FewHexDigits(value, 8);
    hide Pow2;
    var convBuf := new byte[64];
    Itoa(value, convBuf, 8, 16);
    ghost var digits := Digits(value, 16);
    var startingIndex := StrlenOf(convBuf, 8, digits);
    var i: nat := startingIndex;
    while i < 8
      invariant startingIndex <= i <= 8
      invariant forall k :: startingIndex <= k < i ==> convBuf[k] == 48
      invariant convBuf[8..8 + |digits|] == digits
    {
      convBuf[i] := 48;
      i := i + 1;
    }
    printed := convBuf[startingIndex..8 + startingIndex];
    assert convBuf[startingIndex..8] == Zeros(8 - |digits|);
    assert printed == convBuf[startingIndex..8] + convBuf[8..8 + startingIndex];
  }

  method StrlenOf(s: array<byte>, off: nat, ghost text: seq<byte>) returns (len: nat)
    requires off + |text| < s.Length && s[off..off + |text|] == text && s[off + |text|] == NUL && NUL !in text
    ensures len == |text|
  {
    len := Strlen(s, off);
    assert s[off..][..|text|] == text && s[off..][..len] == s[off..off + len];
    SameEnd(s[off..], len, |text|);
  }

  lemma {:induction false} LeadingZeros(n: nat, s: seq<byte>, radix: int)
    requires 2 <= radix <= 36
    ensures Value(Zeros(n) + s, radix) == Value(s, radix)
    decreases n + |s|
  {
    var all := Zeros(n) + s;
    if s != [] {
      assert all[..|all| - 1] == Zeros(n) + s[..|s| - 1];
      LeadingZeros(n, s[..|s| - 1], radix);
    } else if n > 0 {
      assert all[..n - 1] == Zeros(n - 1) + [];
      LeadingZeros(n - 1, [], radix);
    } else {
      assert all == s;
    }
  }

  /** Padding makes exactly eight hexadecimal digits of the same value. */
  lemma {:induction false} AlignedHexReadsBack(value: nat)
    requires value < WORD32
    ensures var digits := Digits(value, 16);
            && |digits| <= 8 && |Zeros(8 - |digits|) + digits| == 8
            && Value(Zeros(8 - |digits|) + digits, 16) == value && IsNumeral(Zeros(8 - |digits|) + digits, 16)
  {
    WordIsPow2();
    FewHexDigits(value, 8);
    DigitsReadBack(value, 16);
    LeadingZeros(8 - |Digits(value, 16)|, Digits(value, 16), 16);
  }
}
