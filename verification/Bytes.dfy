/** Bytes and the C strings the kernel and its programs pass around. */
module Bytes {

  type byte = b: int | 0 <= b < 256

  const NUL: byte := 0
  const NEWLINE: byte := 10
  const RETURN: byte := 13
  const SPACE: byte := 32

  /** The C string that starts at s[0]: everything before the first NUL. */
  function CString(s: seq<byte>): (r: seq<byte>)
    ensures r <= s
    ensures NUL !in r
    ensures |r| < |s| ==> s[|r|] == NUL
  {
    if s == [] || s[0] == NUL then [] else [s[0]] + CString(s[1..])
  }

  /** The three facts of CString's contract determine it. */
  lemma {:induction false} CStringIs(s: seq<byte>, n: nat)
    requires n <= |s|
    requires forall i :: 0 <= i < n ==> s[i] != NUL
    requires n < |s| ==> s[n] == NUL
    ensures CString(s) == s[..n]
  {
    var r := CString(s);
    assert forall i :: 0 <= i < |r| ==> r[i] == s[i];
    assert |r| == n;
  }

  lemma {:induction false} SliceOfSlice<T>(s: seq<T>, a: nat, b: nat, c: nat, d: nat)
    requires a <= b <= |s| && c <= d <= b - a
    ensures s[a..b][c..d] == s[a + c..a + d]
  {
    var inner, outer := s[a..b][c..d], s[a + c..a + d];
    forall i | 0 <= i < d - c
      ensures inner[i] == outer[i]
    {
      assert inner[i] == s[a..b][c + i];
    }
  }

  lemma {:induction false} TakeSlice<T>(s: seq<T>, n: nat, a: nat, b: nat)
    requires a <= b <= n <= |s|
    ensures s[..n][a..b] == s[a..b]
  {
    var inner, outer := s[..n][a..b], s[a..b];
    forall i | 0 <= i < b - a
      ensures inner[i] == outer[i]
    {
      assert inner[i] == s[..n][a + i];
    }
  }

  /** Cutting a sum behind its first part. */
  lemma {:induction false} CutSum<T>(a: seq<T>, b: seq<T>, n: nat)
    requires |a| <= n <= |a| + |b|
    ensures (a + b)[..n] == a + b[..n - |a|] && (a + b)[n..] == b[n - |a|..]
  {
  }

  lemma {:induction false} SetBehind<T>(s: seq<T>, k: nat, x: T, a: nat, b: nat)
    requires a <= b <= k < |s|
    ensures s[k := x][a..b] == s[a..b]
  {
  }

  lemma {:induction false} ArraySlice<T>(s: array<T>, a: nat, b: nat)
    requires a <= b <= s.Length
    ensures s[..][a..b] == s[a..b] && s[..][..b] == s[..b]
  {
  }

  lemma {:induction false} ExtendSlice<T>(s: seq<T>, a: nat, b: nat)
    requires a <= b < |s|
    ensures s[a..b + 1] == s[a..b] + [s[b]]
  {
  }

  /** Writing one byte behind a prefix extends the prefix and shortens the rest. */
  lemma {:induction false} SetNext<T>(s: seq<T>, i: nat, x: T)
    requires i < |s|
    ensures s[i := x][..i + 1] == s[..i] + [x] && s[i := x][i + 1..] == s[i + 1..] == s[i..][1..]
  {
  }

  lemma {:induction false} AppendAssoc<T>(a: seq<T>, b: seq<T>, c: seq<T>)
    ensures a + (b + c) == (a + b) + c
  {
  }
}
