/** The streaming line search of the grep program (chapOS/syscalls/ece391grep.c). */
module Grep {
  import opened Bytes

  const BUFSIZE := 1024

  // ---------------------------------------------------------------- meaning

  /** Where the first line of text ends: the first newline, or the end. */
  function LineEnd(text: seq<byte>): (k: nat)
    ensures k <= |text|
    ensures forall i :: 0 <= i < k ==> text[i] != NEWLINE
    ensures k < |text| ==> text[k] == NEWLINE
  {
    if text == [] || text[0] == NEWLINE then 0 else 1 + LineEnd(text[1..])
  }

  /** The lines of a file, without their newlines. */
  function Lines(text: seq<byte>): (r: seq<seq<byte>>)
    decreases |text|
  {
    var k := LineEnd(text);
    if k == |text| then [text] else [text[..k]] + Lines(text[k + 1..])
  }

  /** The pattern occurs in the line at k.  As in C, an empty pattern starts with its NUL. */
  predicate MatchAt(line: seq<byte>, k: nat, pattern: seq<byte>)
    requires k < |line|
  {
    if pattern == [] then line[k] == NUL
    else k + |pattern| <= |line| && line[k..k + |pattern|] == pattern
  }

  predicate Contains(line: seq<byte>, pattern: seq<byte>)
  {
    exists k :: 0 <= k < |line| && MatchAt(line, k, pattern)
  }

  /** The lines that contain the pattern, in order, each as the C string that is printed. */
  function Select(lines: seq<seq<byte>>, pattern: seq<byte>): (r: seq<seq<byte>>)
  {
    if lines == [] then []
    else (if Contains(lines[0], pattern) then [CString(lines[0])] else []) + Select(lines[1..], pattern)
  }

  /** What a search promises: the matching lines of the file. */
  function Matches(text: seq<byte>, pattern: seq<byte>): seq<seq<byte>>
  {
    Select(Lines(text), pattern)
  }

  /** What a 1024-byte window can see: lines cut into pieces of at most 1024 bytes. */
  function Pieces(text: seq<byte>): (r: seq<seq<byte>>)
    decreases |text|
  {
    var k := LineEnd(text);
    if text == [] then []
    else if k >= BUFSIZE then [text[..BUFSIZE]] + Pieces(text[BUFSIZE..])
    else if k == |text| then [text]
    else [text[..k]] + Pieces(text[k + 1..])
  }

  function WindowMatches(text: seq<byte>, pattern: seq<byte>): seq<seq<byte>>
  {
    Select(Pieces(text), pattern)
  }

  // ---------------------------------------------------- facts about the meaning

  lemma {:induction false} LineEndIs(text: seq<byte>, k: nat)
    requires k <= |text| && forall i :: 0 <= i < k ==> text[i] != NEWLINE
    requires k < |text| ==> text[k] == NEWLINE
    ensures LineEnd(text) == k
  {
    if k > 0 {
      LineEndIs(text[1..], k - 1);
    }
  }

  lemma {:induction false} SelectOne(line: seq<byte>, pattern: seq<byte>)
    ensures Select([line], pattern) == if Contains(line, pattern) then [CString(line)] else []
  {
    assert [line][1..] == [];
  }

  lemma {:induction false} SelectConcat(a: seq<seq<byte>>, b: seq<seq<byte>>, pattern: seq<byte>)
    ensures Select(a + b, pattern) == Select(a, pattern) + Select(b, pattern)
  {
    hide Contains, CString;
    if a == [] {
      assert a + b == b;
    } else {
      assert (a + b)[1..] == a[1..] + b;
      SelectConcat(a[1..], b, pattern);
    }
  }

  /** A window that starts inside a file: one piece is searched, the rest is left for later. */
  lemma {:induction false} PieceStep(text: seq<byte>, k: nat, pattern: seq<byte>)
    requires k < |text| && k < BUFSIZE && (forall i :: 0 <= i < k ==> text[i] != NEWLINE) && text[k] == NEWLINE
    ensures WindowMatches(text, pattern) == Select([text[..k]], pattern) + WindowMatches(text[k + 1..], pattern)
  {
    LineEndIs(text, k);
    SelectConcat([text[..k]], Pieces(text[k + 1..]), pattern);
  }

  lemma {:induction false} FullPieceStep(text: seq<byte>, pattern: seq<byte>)
    requires |text| >= BUFSIZE && forall i :: 0 <= i < BUFSIZE ==> text[i] != NEWLINE
    ensures WindowMatches(text, pattern) == Select([text[..BUFSIZE]], pattern) + WindowMatches(text[BUFSIZE..], pattern)
  {
    assert LineEnd(text) >= BUFSIZE;
    SelectConcat([text[..BUFSIZE]], Pieces(text[BUFSIZE..]), pattern);
  }

  lemma {:induction false} OnePiece(text: seq<byte>, pattern: seq<byte>)
    requires |text| <= BUFSIZE && forall i :: 0 <= i < |text| ==> text[i] != NEWLINE
    ensures WindowMatches(text, pattern) == Select([text], pattern)
    ensures WindowMatches([], pattern) == []
  {
    LineEndIs(text, |text|);
    if |text| == BUFSIZE {
      assert text[..BUFSIZE] == text && text[BUFSIZE..] == [];
      assert Pieces(text) == [text] + [];
    } else if text == [] {
      SelectOne(text, pattern);
    }
  }

  // ------------------------------------------- what the meaning means

  /** A line contains a pattern exactly when it is the pattern with something before and behind; it
      contains the empty pattern exactly when it contains a NUL. */
  lemma {:induction false} ContainsExactly(line: seq<byte>, pattern: seq<byte>)
    ensures pattern != [] ==> (Contains(line, pattern) <==> exists a, b :: line == a + pattern + b)
    ensures Contains(line, []) <==> 0 in line
  {
    if pattern != [] && Contains(line, pattern) {
      var k :| 0 <= k < |line| && MatchAt(line, k, pattern);
      assert line == line[..k] + pattern + line[k + |pattern|..];
    }
    forall a, b | pattern != [] && line == a + pattern + b
      ensures Contains(line, pattern)
    {
      assert line[|a|..|a| + |pattern|] == pattern;
      assert MatchAt(line, |a|, pattern);
    }
    if 0 in line {
      var k :| 0 <= k < |line| && line[k] == 0;
      assert MatchAt(line, k, []);
    }
  }

  /** Lines with a newline between them. */
  function Joined(lines: seq<seq<byte>>): seq<byte>
    requires lines != []
  {
    if |lines| == 1 then lines[0] else lines[0] + [10] + Joined(lines[1..])
  }

  predicate AllNoNewline(lines: seq<seq<byte>>)
  {
    forall i :: 0 <= i < |lines| ==> NoNewline(lines[i])
  }

  /** The first line of a text and the lines behind it. */
  lemma {:induction false} FirstLine(text: seq<byte>)
    ensures var k := LineEnd(text);
            && NoNewline(text[..k])
            && (k == |text| ==> text[..k] == text && Lines(text) == [text])
            && (k < |text| ==> && text == text[..k] + [10] + text[k + 1..]
                               && Lines(text) == [text[..k]] + Lines(text[k + 1..]))
  {
    var k := LineEnd(text);
    assert forall i :: 0 <= i < k ==> text[..k][i] == text[i];
  }

  /** The lines of a text have no newline, and joined they are the text. */
  lemma {:induction false} LinesJoin(text: seq<byte>)
    ensures Lines(text) != [] && AllNoNewline(Lines(text)) && Joined(Lines(text)) == text
    decreases |text|
  {
    hide Lines, NoNewline;
    var k := LineEnd(text);
    FirstLine(text);
    if k < |text| {
      var rest := Lines(text[k + 1..]);
      LinesJoin(text[k + 1..]);
      assert ([text[..k]] + rest)[1..] == rest;
    }
  }

  /** One line in front of others. */
  lemma {:induction false} LinesMore(line: seq<byte>, rest: seq<byte>)
    requires NoNewline(line)
    ensures Lines(line + [10] + rest) == [line] + Lines(rest)
  {
    var text := line + [10] + rest;
    assert forall i :: 0 <= i < |line| ==> text[i] == line[i];
    LineEndIs(text, |line|);
    assert text[..|line|] == line && text[|line| + 1..] == rest;
  }

  lemma {:induction false} NoLines()
    ensures Lines([]) == [[]]
  {
  }

  /** What is appended to a text of complete lines has its own lines. */
  lemma {:induction false} LinesBehind(text: seq<byte>, lines: seq<seq<byte>>, more: seq<byte>)
    requires Lines(text) == lines + [[]]
    ensures Lines(text + more) == lines + Lines(more)
    decreases |text|
  {
    hide Lines, NoNewline;
    var k := LineEnd(text);
    FirstLine(text);
    if k == |text| {
      assert |lines + [[]]| == |lines| + 1;
      assert text == (lines + [[]])[0] == [];
      assert text + more == more;
    } else {
      var line, rest := text[..k], text[k + 1..];
      LinesJoin(rest);
      FrontOfSum(line, Lines(rest), lines, []);
      LinesBehind(rest, lines[1..], more);
      LinesMore(line, rest + more);
      assert text + more == line + [10] + (rest + more);
      assert [line] + (lines[1..] + Lines(more)) == lines + Lines(more);
    }
  }

  lemma {:induction false} FrontOfSum<T>(first: T, rest: seq<T>, s: seq<T>, last: T)
    requires [first] + rest == s + [last] && rest != []
    ensures s != [] && s[0] == first && rest == s[1..] + [last]
  {
    assert |[first] + rest| == |s| + 1;
    assert ([first] + rest)[0] == (s + [last])[0];
    assert rest == ([first] + rest)[1..] == (s + [last])[1..];
  }

  /** And the other way round. */
  lemma {:induction false} JoinedLines(lines: seq<seq<byte>>)
    requires lines != [] && AllNoNewline(lines)
    ensures Lines(Joined(lines)) == lines
  {
    if |lines| == 1 {
      LineEndIs(lines[0], |lines[0]|);
    } else {
      assert NoNewline(lines[0]);
      JoinedLines(lines[1..]);
      LinesMore(lines[0], Joined(lines[1..]));
    }
  }

  /** The matches of a text are those of its first line and those of the rest; a line without a NUL
      is reported as it is. */
  lemma {:induction false} MatchesMore(line: seq<byte>, rest: seq<byte>, pattern: seq<byte>)
    requires NoNewline(line)
    ensures Matches(line + [10] + rest, pattern)
            == (if Contains(line, pattern) then [CString(line)] else []) + Matches(rest, pattern)
    ensures Matches(line, pattern) == if Contains(line, pattern) then [CString(line)] else []
    ensures 0 !in line ==> CString(line) == line
  {
    LinesMore(line, rest);
    LineEndIs(line, |line|);
    assert Lines(line) == [line];
    CStringIs(line, |CString(line)|);
    hide Lines, Contains, Select;
    SelectConcat([line], Lines(rest), pattern);
    SelectOne(line, pattern);
  }

  // ------------------------------------------- when the window makes no difference

  predicate LongMatch(line: seq<byte>, pattern: seq<byte>) {
    |line| > BUFSIZE && Contains(line, pattern)
  }

  lemma {:induction false} PartContains(line: seq<byte>, lo: nat, hi: nat, pattern: seq<byte>)
    requires lo <= hi <= |line|
    requires Contains(line[lo..hi], pattern)
    ensures Contains(line, pattern)
  {
    var part := line[lo..hi];
    var k :| 0 <= k < |part| && MatchAt(part, k, pattern);
    if pattern != [] {
      SliceOfSlice(line, lo, hi, k, k + |pattern|);
    }
    assert MatchAt(line, lo + k, pattern);
  }

  /** A long line without a match: neither its first piece nor the rest of it has one. */
  lemma {:induction false} LongLineStep(text: seq<byte>, pattern: seq<byte>)
    requires LineEnd(text) >= BUFSIZE && !Contains(text[..LineEnd(text)], pattern)
    ensures var k, rest := LineEnd(text), text[BUFSIZE..];
            && !Contains(text[..BUFSIZE], pattern)
            && LineEnd(rest) == k - BUFSIZE && !Contains(rest[..k - BUFSIZE], pattern)
            && (k < |text| ==> rest[k - BUFSIZE + 1..] == text[k + 1..])
  {
    hide Contains;
    var k, rest := LineEnd(text), text[BUFSIZE..];
    var line := text[..k];
    assert forall i :: 0 <= i < |rest| ==> rest[i] == text[BUFSIZE + i];
    LineEndIs(rest, k - BUFSIZE);
    assert line[0..BUFSIZE] == text[..BUFSIZE] && line[BUFSIZE..k] == rest[..k - BUFSIZE];
    assert k < |text| ==> rest[k - BUFSIZE + 1..] == text[k + 1..];
    if Contains(text[..BUFSIZE], pattern) {
      PartContains(line, 0, BUFSIZE, pattern);
    }
    if Contains(rest[..k - BUFSIZE], pattern) {
      PartContains(line, BUFSIZE, k, pattern);
    }
  }

  /** The pieces of a line without a match print nothing. */
  lemma {:induction false} NoMatchNoPiece(text: seq<byte>, pattern: seq<byte>)
    requires !Contains(text[..LineEnd(text)], pattern)
    ensures var k := LineEnd(text);
            WindowMatches(text, pattern) == if k == |text| then [] else WindowMatches(text[k + 1..], pattern)
    decreases |text|
  {
    hide WindowMatches, Contains, Select, Pieces, CString;
    var k := LineEnd(text);
    if k >= BUFSIZE {
      LongLineStep(text, pattern);
      FullPieceStep(text, pattern);
      SelectOne(text[..BUFSIZE], pattern);
      NoMatchNoPiece(text[BUFSIZE..], pattern);
    } else if k < |text| {
      PieceStep(text, k, pattern);
      SelectOne(text[..k], pattern);
    } else {
      assert text[..k] == text;
      OnePiece(text, pattern);
      SelectOne(text, pattern);
    }
  }

  /** Every record printed through the window has at most 1024 bytes. */
  lemma {:induction false} WindowRecordsAreShort(text: seq<byte>, pattern: seq<byte>)
    ensures forall m :: m in WindowMatches(text, pattern) ==> |m| <= BUFSIZE
    decreases |text|
  {
    hide Pieces;
    var k := LineEnd(text);
    if k >= BUFSIZE {
      assert text[..BUFSIZE] == text[..k][..BUFSIZE];
      FullPieceStep(text, pattern);
      WindowRecordsAreShort(text[BUFSIZE..], pattern);
    } else if k < |text| {
      PieceStep(text, k, pattern);
      WindowRecordsAreShort(text[k + 1..], pattern);
    } else {
      assert text[..k] == text;
      OnePiece(text, pattern);
    }
  }

  lemma {:induction false} LongMatchIsPromised(text: seq<byte>, pattern: seq<byte>, line: seq<byte>)
    requires NUL !in text && line in Lines(text) && LongMatch(line, pattern)
    ensures line in Matches(text, pattern)
    decreases |text|
  {
    var k := LineEnd(text);
    if k == |text| {
      CStringIs(text, |text|);
      assert text[..|text|] == text;
    } else {
      SelectConcat([text[..k]], Lines(text[k + 1..]), pattern);
      if line == text[..k] {
        CStringIs(line, |line|);
        assert line[..|line|] == line;
        assert Select([line], pattern) == [line];
      } else {
        LongMatchIsPromised(text[k + 1..], pattern, line);
      }
    }
  }

  predicate NoLongMatch(lines: seq<seq<byte>>, pattern: seq<byte>) {
    forall i :: 0 <= i < |lines| ==> !LongMatch(lines[i], pattern)
  }

  /** One line that is short, or has no match, is found as promised. */
  lemma {:induction false} FirstLineStep(text: seq<byte>, pattern: seq<byte>)
    requires LineEnd(text) < |text|
    requires !LongMatch(text[..LineEnd(text)], pattern)
    ensures var k := LineEnd(text);
            WindowMatches(text, pattern) == Select([text[..k]], pattern) + WindowMatches(text[k + 1..], pattern)
  {
    hide Pieces;
    var k := LineEnd(text);
    var line, rest := text[..k], text[k + 1..];
    if !Contains(line, pattern) {
      NoMatchNoPiece(text, pattern);
      SelectOne(line, pattern);
    } else if k < BUFSIZE {
      PieceStep(text, k, pattern);
    } else {
      // a line of exactly 1024 bytes: its newline is read as an empty line of its own
      var tail := text[BUFSIZE..];
      FullPieceStep(text, pattern);
      PieceStep(tail, 0, pattern);
      assert tail[1..] == rest;
      SelectOne(tail[..0], pattern);
    }
  }

  lemma {:induction false} NoLongMatchNoDifference(text: seq<byte>, pattern: seq<byte>)
    requires NoLongMatch(Lines(text), pattern)
    ensures WindowMatches(text, pattern) == Matches(text, pattern)
    decreases |text|
  {
    hide WindowMatches, Contains;
    var k := LineEnd(text);
    var line := text[..k];
    assert Lines(text)[0] == line;
    if k == |text| {
      assert line == text;
      if Contains(text, pattern) {
        OnePiece(text, pattern);
      } else {
        NoMatchNoPiece(text, pattern);
        SelectOne(text, pattern);
      }
    } else {
      var rest := text[k + 1..];
      SelectConcat([line], Lines(rest), pattern);
      assert forall i :: 0 <= i < |Lines(rest)| ==> Lines(rest)[i] == Lines(text)[i + 1];
      NoLongMatchNoDifference(rest, pattern);
      FirstLineStep(text, pattern);
    }
  }

  /** A matching line longer than the window is promised, but never printed, whatever is read. */
  lemma {:induction false} LongMatchIsNotPrinted(text: seq<byte>, read: seq<byte>, pattern: seq<byte>)
    requires NUL !in text && !NoLongMatch(Lines(text), pattern)
    ensures WindowMatches(read, pattern) != Matches(text, pattern)
  {
    var i :| 0 <= i < |Lines(text)| && LongMatch(Lines(text)[i], pattern);
    LongMatchIsPromised(text, pattern, Lines(text)[i]);
    WindowRecordsAreShort(read, pattern);
  }

  /** The window finds exactly the promised lines if and only if no line longer than the
      window contains the pattern. */
  lemma {:induction false} WindowIsExact(text: seq<byte>, pattern: seq<byte>)
    requires NUL !in text
    ensures WindowMatches(text, pattern) == Matches(text, pattern)
            <==> NoLongMatch(Lines(text), pattern)
  {
    if NoLongMatch(Lines(text), pattern) {
      NoLongMatchNoDifference(text, pattern);
    } else {
      LongMatchIsNotPrinted(text, text, pattern);
    }
  }

  /** A line of letters a that is searched for an a is printed whole. */
  lemma {:induction false} SelectLetters(line: seq<byte>)
    requires line != [] && forall i :: 0 <= i < |line| ==> line[i] == 97
    ensures Select([line], [97]) == [line]
  {
    CStringIs(line, |line|);
    assert line[..|line|] == line;
    assert line[0..1] == [97];
    assert MatchAt(line, 0, [97]);
    SelectOne(line, [97]);
  }

  /** A file of one line of 1025 letters is reported in two records instead of one. */
  lemma {:induction false} LongLineIsSplit(text: seq<byte>)
    requires |text| == BUFSIZE + 1 && forall i :: 0 <= i < |text| ==> text[i] == 97
    ensures Matches(text, [97]) == [text]
    ensures WindowMatches(text, [97]) == [text[..BUFSIZE], [97]]
  {
    hide WindowMatches;
    LineEndIs(text, |text|);
    assert Lines(text) == [text];
    SelectLetters(text);
    FullPieceStep(text, [97]);
    SelectLetters(text[..BUFSIZE]);
    assert text[BUFSIZE..] == [97];
    SelectLetters([97]);
    OnePiece([97], [97]);
  }

  // ---------------------------------------------------------------- what the buffer holds

  predicate NoNewline(s: seq<byte>)
  {
    forall i :: 0 <= i < |s| ==> s[i] != NEWLINE
  }

  /** Where the line that is unfinished at the end of s begins: behind the last newline of s. */
  function BehindLastNewline(s: seq<byte>): (k: nat)
    ensures k <= |s| && (k > 0 ==> s[k - 1] == NEWLINE)
    ensures forall i :: k <= i < |s| ==> s[i] != NEWLINE
  {
    if s == [] || s[|s| - 1] == NEWLINE then |s| else BehindLastNewline(s[..|s| - 1])
  }

  lemma {:induction false} BehindLastNewlineIs(s: seq<byte>, k: nat)
    requires k <= |s| && NoNewline(s[k..]) && (k == 0 || s[k - 1] == NEWLINE)
    ensures BehindLastNewline(s) == k
  {
    assert forall i :: k <= i < |s| ==> s[i] == s[k..][i - k];
  }

  /** How much of an unfinished line is copied to the front: up to and with its first NUL. */
  function CopiedLength(line: seq<byte>): (n: nat)
    ensures n <= |line| && (Clean(line) ==> n == |line|)
  {
    if |CString(line)| < |line| then |CString(line)| + 1 else |line|
  }

  /** No byte but the last one is a NUL. */
  predicate Clean(line: seq<byte>)
  {
    forall i :: 0 <= i < |line| - 1 ==> line[i] != NUL
  }

  /** A window after its lines were searched: their newlines have become NULs. */
  function Cleared(window: seq<byte>): (r: seq<byte>)
    ensures |r| == |window| && NoNewline(r)
    ensures forall i :: 0 <= i < |window| ==> r[i] == if window[i] == NEWLINE then NUL else window[i]
  {
    seq<byte>(|window|, i requires 0 <= i < |window| => if window[i] == NEWLINE then NUL else window[i])
  }

  /** What the front of the buffer holds after the unfinished line of a window was copied there:
      behind a NUL in it the bytes that were there before. */
  function CarriedBytes(window: seq<byte>): (r: seq<byte>)
    ensures |r| == |window| - BehindLastNewline(window) && NoNewline(r)
  {
    var line := window[BehindLastNewline(window)..];
    var n := CopiedLength(line);
    UnfinishedLine(window);
    SplicedLine(line, Cleared(window), n);
    line[..n] + Cleared(window)[n..|line|]
  }

  lemma {:induction false} UnfinishedLine(window: seq<byte>)
    ensures NoNewline(window[BehindLastNewline(window)..])
  {
    var k := BehindLastNewline(window);
    assert forall i :: 0 <= i < |window| - k ==> window[k..][i] == window[k + i];
  }

  lemma {:induction false} SplicedLine(line: seq<byte>, before: seq<byte>, n: nat)
    requires n <= |line| <= |before| && NoNewline(line) && NoNewline(before)
    ensures NoNewline(line[..n] + before[n..|line|])
  {
    var r := line[..n] + before[n..|line|];
    assert forall i :: 0 <= i < |line| ==> r[i] == if i < n then line[i] else before[i];
  }

  /** Where the window begins that follows another: it keeps the unfinished line, unless that fills
      the window, or a newline that happens to stand behind the window ends it. */
  function NextStart(window: seq<byte>, stray: bool): (k: nat)
    ensures k <= |window| && (window != [] ==> k > 0)
  {
    var k := BehindLastNewline(window);
    if k == 0 || stray then |window| else k
  }

  /** What a pass over a window leaves at the front of the buffer. */
  function Kept(window: seq<byte>, stray: bool): (r: seq<byte>)
    ensures |r| == |window| - NextStart(window, stray) && NoNewline(r)
  {
    if BehindLastNewline(window) == 0 || stray then [] else CarriedBytes(window)
  }

  /** A newline behind the window is still there after the pass. */
  predicate Stays(window: seq<byte>, stray: bool)
  {
    stray && BehindLastNewline(window) == |window|
  }

  /** The lines that a pass over a window searches. */
  function Searched(window: seq<byte>, stray: bool): seq<seq<byte>>
  {
    var k := BehindLastNewline(window);
    Pieces(window[..k]) + if (k == 0 || stray) && k < |window| then [window[k..]] else []
  }

  function FirstWindow(text: seq<byte>): (w: seq<byte>)
    ensures w <= text && (text != [] ==> w != [])
  {
    if |text| < BUFSIZE then text else text[..BUFSIZE]
  }

  /** The lines that are searched in a text, with the bytes that the buffer holds for them. */
  function Seen(text: seq<byte>, stray: bool): seq<seq<byte>>
    decreases |text|
  {
    if text == [] then []
    else
      var w := FirstWindow(text);
      var next := Kept(w, stray) + text[|w|..];
      Searched(w, stray) + Seen(next, Stays(w, stray) && |next| >= BUFSIZE)
  }

  /** Every unfinished line arrives whole in the next window, and none is ended by a stray newline
      while more of it follows. */
  predicate SeesAll(text: seq<byte>, stray: bool)
    decreases |text|
  {
    text == [] ||
    var w := FirstWindow(text);
    var k := BehindLastNewline(w);
    var next := text[NextStart(w, stray)..];
    if stray && 0 < k < |w| then |text| == |w|
    else (k == 0 || CarriedBytes(w) == w[k..]) && SeesAll(next, Stays(w, stray) && |next| >= BUFSIZE)
  }

  // ------------------------------------------- when it is what the window sees

  lemma {:induction false} NothingSeen()
    ensures Seen([], false) == [] && Pieces([]) == []
  {
  }

  lemma {:induction false} FirstPiece(text: seq<byte>)
    requires text != []
    ensures var e := LineEnd(text);
            Pieces(text) == if e >= BUFSIZE then [text[..BUFSIZE]] + Pieces(text[BUFSIZE..])
                            else if e < |text| then [text[..e]] + Pieces(text[e + 1..])
                            else [text]
  {
  }

  /** Where the first piece of a text ends, and where the next begins, when a newline ends it or
      the window does. */
  function PieceEnd(text: seq<byte>): nat
  {
    if LineEnd(text) >= BUFSIZE then BUFSIZE else LineEnd(text)
  }

  function NextPiece(text: seq<byte>): nat
  {
    if LineEnd(text) >= BUFSIZE then BUFSIZE else LineEnd(text) + 1
  }

  lemma {:induction false} PieceBefore(text: seq<byte>)
    requires LineEnd(text) < |text|
    ensures PieceEnd(text) <= NextPiece(text) <= |text|
    ensures Pieces(text) == [text[..PieceEnd(text)]] + Pieces(text[NextPiece(text)..])
  {
    FirstPiece(text);
  }

  /** A newline ends a piece, so a text can be cut behind it. */
  lemma {:induction false} PiecesConcat(text: seq<byte>, k: nat)
    requires k <= |text| && (k == 0 || text[k - 1] == NEWLINE)
    ensures Pieces(text) == Pieces(text[..k]) + Pieces(text[k..])
    decreases |text|
  {
    hide Pieces, LineEnd, PieceEnd, NextPiece;
    if k == 0 {
      NothingSeen();
      assert text[k..] == text && text[..0] == [];
    } else {
      var front, n, next := text[..k], PieceEnd(text), NextPiece(text);
      LineEndBefore(text, k);
      PieceBefore(text);
      PieceBefore(front);
      CutTwice(text, k, n, next);
      PiecesConcat(text[next..], k - next);
      AppendAssoc([text[..n]], Pieces(front[next..]), Pieces(text[k..]));
    }
  }

  lemma {:induction false} LineEndBefore(text: seq<byte>, k: nat)
    requires 0 < k <= |text| && text[k - 1] == NEWLINE
    ensures LineEnd(text) < |text| && LineEnd(text[..k]) == LineEnd(text) < k
    ensures 0 <= PieceEnd(text[..k]) == PieceEnd(text) <= NextPiece(text[..k]) == NextPiece(text) <= k
  {
    LineEndIs(text[..k], LineEnd(text));
  }

  lemma {:induction false} CutTwice<T>(s: seq<T>, k: nat, n: nat, next: nat)
    requires n <= next <= k <= |s|
    ensures s[..k][..n] == s[..n] && s[next..][..k - next] == s[..k][next..] && s[next..][k - next..] == s[k..]
  {
  }

  /** The first piece begins with what precedes the first newline. */
  lemma {:induction false} HeadOfPieces(line: seq<byte>, rest: seq<byte>)
    requires 0 < |line| < BUFSIZE && NoNewline(line)
    ensures var pieces := Pieces(line + rest);
            pieces != [] && |pieces[0]| >= |line| && pieces[0][..|line|] == line
  {
    var text := line + rest;
    assert forall i :: 0 <= i < |line| ==> text[i] == line[i];
    FirstPiece(text);
    hide Pieces;
    assert text[..|line|] == line;
  }

  lemma {:induction false} FirstSearched(text: seq<byte>, stray: bool)
    requires text != []
    ensures var w := FirstWindow(text);
            var next := Kept(w, stray) + text[|w|..];
            Seen(text, stray) == Searched(w, stray) + Seen(next, Stays(w, stray) && |next| >= BUFSIZE)
  {
  }

  lemma {:induction false} HeadOfSeen(line: seq<byte>, rest: seq<byte>)
    requires 0 < |line| < BUFSIZE && NoNewline(line)
    ensures var seen := Seen(line + rest, false);
            seen != [] && |seen[0]| >= |line| && seen[0][..|line|] == line
  {
    hide Seen, Kept, Pieces;
    var text := line + rest;
    var w := FirstWindow(text);
    var k := BehindLastNewline(w);
    assert w[..|line|] == line;
    assert forall i :: 0 <= i < |line| ==> w[i] == line[i];
    FirstSearched(text, false);
    if k > 0 {
      assert w[..k] == line + w[|line|..k];
      HeadOfPieces(line, w[|line|..k]);
    } else {
      NoNewlinePieces(text, w);
    }
  }

  lemma {:induction false} LineEndSame(a: seq<byte>, b: seq<byte>, rest: seq<byte>)
    requires |a| == |b| && NoNewline(a) && NoNewline(b)
    ensures |a| <= LineEnd(a + rest) == LineEnd(b + rest) <= |a + rest|
  {
    assert forall i :: 0 <= i < |a| ==> (a + rest)[i] == a[i] && (b + rest)[i] == b[i];
    assert forall i :: |a| <= i < |a + rest| ==> (a + rest)[i] == rest[i - |a|] == (b + rest)[i];
    LineEndIs(b + rest, LineEnd(a + rest));
  }

  /** How many pieces there are depends on the newlines only. */
  lemma {:induction false} SameCount(a: seq<byte>, b: seq<byte>, rest: seq<byte>)
    requires |a| == |b| < BUFSIZE && NoNewline(a) && NoNewline(b)
    ensures |Pieces(a + rest)| == |Pieces(b + rest)|
  {
    hide *;
    NothingSeen();
    if a + rest == [] {
      assert b + rest == [];
    } else {
      FirstPiece(a + rest);
      FirstPiece(b + rest);
      LineEndSame(a, b, rest);
      var e := LineEnd(a + rest);
      if e >= BUFSIZE {
        assert (a + rest)[BUFSIZE..] == (b + rest)[BUFSIZE..];
      } else if e < |a + rest| {
        assert (a + rest)[e + 1..] == (b + rest)[e + 1..];
      }
    }
  }

  /** A window without a newline is one piece. */
  lemma {:induction false} NoNewlinePieces(text: seq<byte>, w: seq<byte>)
    requires text != [] && w == FirstWindow(text) && BehindLastNewline(w) == 0
    ensures Pieces(text) == [w] + Pieces(text[|w|..])
    ensures forall stray :: Searched(w, stray) == [w] && Kept(w, stray) + text[|w|..] == text[|w|..]
  {
    assert forall i :: 0 <= i < |w| ==> text[i] == w[i] != NEWLINE;
    assert w[0..] == w && Pieces(w[..0]) == [];
    if |text| < BUFSIZE {
      LineEndIs(text, |text|);
    } else {
      assert LineEnd(text) >= BUFSIZE;
    }
  }

  /** A window with a newline: its complete lines are pieces of the text, and the rest follows. */
  lemma {:induction false} CompleteLines(text: seq<byte>, w: seq<byte>, stray: bool)
    requires text != [] && w == FirstWindow(text) && BehindLastNewline(w) > 0
    ensures var k, rest := BehindLastNewline(w), text[|w|..];
            && Pieces(text) == Pieces(w[..k]) + Pieces(w[k..] + rest)
            && Searched(w, stray) == Pieces(w[..k]) + (if stray && k < |w| then [w[k..]] else [])
            && Kept(w, stray) == (if stray then [] else CarriedBytes(w))
            && |w[k..]| < BUFSIZE && NoNewline(w[k..])
  {
    hide Pieces, CarriedBytes;
    var k, rest := BehindLastNewline(w), text[|w|..];
    assert text[..k] == w[..k] && text[k..] == w[k..] + rest;
    PiecesConcat(text, k);
    assert forall i :: 0 <= i < |w| - k ==> w[k..][i] == w[k + i];
  }

  lemma {:induction false} WindowShape(text: seq<byte>, w: seq<byte>)
    requires text != [] && w == FirstWindow(text)
    ensures 0 < |w| <= |text| && BehindLastNewline(w) <= |w|
    ensures Stays(w, true) ==> BehindLastNewline(w) == |w|
    ensures !Stays(w, false)
  {
  }

  lemma {:induction false} CarriedShape(w: seq<byte>)
    ensures BehindLastNewline(w) <= |w| && |CarriedBytes(w)| == |w| - BehindLastNewline(w)
    ensures NoNewline(CarriedBytes(w))
  {
  }

  /** Without a stray newline there are as many lines as pieces. */
  lemma {:induction false} SeenCount(text: seq<byte>)
    ensures |Seen(text, false)| == |Pieces(text)|
    decreases |text|
  {
    hide *;
    NothingSeen();
    if text != [] {
      var w := FirstWindow(text);
      var k, rest, kept := BehindLastNewline(w), text[|w|..], Kept(w, false);
      WindowShape(text, w);
      FirstSearched(text, false);
      if k == 0 {
        NoNewlinePieces(text, w);
        SeenCount(rest);
      } else {
        CarriedShape(w);
        CompleteLines(text, w, false);
        SeenCount(kept + rest);
        SameCount(kept, w[k..], rest);
      }
    }
  }

  /** A line that a stray newline ends although more of it follows. */
  lemma {:induction false} StrayCuts(line: seq<byte>, rest: seq<byte>)
    requires 0 < |line| < BUFSIZE && NoNewline(line)
    ensures Pieces(line + rest) == [line] + Seen(rest, false) <==> rest == []
  {
    hide Pieces, Seen;
    var text := line + rest;
    assert forall i :: 0 <= i < |line| ==> text[i] == line[i];
    assert text[..|line|] == line;
    SeenCount(rest);
    FirstPiece(text);
    if rest == [] {
      NothingSeen();
      LineEndIs(text, |text|);
      assert text == line;
    } else if rest[0] == NEWLINE {
      FirstPiece(rest);
      LineEndIs(text, |line|);
      assert text[|line| + 1..] == rest[1..];
    } else {
      assert text[|line|] == rest[0];
      assert |Pieces(text)[0]| > |line|;
    }
  }

  /** A line that a stray newline ends is a piece exactly when nothing follows it. */
  lemma {:induction false} SeenWhenCut(text: seq<byte>, w: seq<byte>)
    requires text != [] && w == FirstWindow(text) && 0 < BehindLastNewline(w) < |w|
    ensures Seen(text, true) == Pieces(text) <==> |text| == |w|
  {
    hide Pieces, Seen, Kept, Searched;
    var k, rest := BehindLastNewline(w), text[|w|..];
    FirstSearched(text, true);
    CompleteLines(text, w, true);
    assert [] + rest == rest;
    AppendAssoc(Pieces(w[..k]), [w[k..]], Seen(rest, false));
    StrayCuts(w[k..], rest);
    SameFront(Pieces(w[..k]), [w[k..]] + Seen(rest, false), Pieces(w[k..] + rest));
  }

  /** What follows carried bytes is seen as if the line itself preceded it only if it does. */
  lemma {:induction false} SeenBehind(carried: seq<byte>, line: seq<byte>, rest: seq<byte>)
    requires |carried| == |line| < BUFSIZE && NoNewline(carried) && NoNewline(line)
    requires Seen(carried + rest, false) == Pieces(line + rest)
    ensures carried == line
  {
    hide Pieces, Seen;
    if line != [] {
      HeadOfSeen(carried, rest);
      HeadOfPieces(line, rest);
    }
  }

  /** A line that is carried is a piece, with what follows, exactly when it arrives whole. */
  lemma {:induction false} SeenWhenCarried(text: seq<byte>, w: seq<byte>, stray: bool)
    requires text != [] && w == FirstWindow(text) && BehindLastNewline(w) > 0
    requires stray ==> BehindLastNewline(w) == |w|
    ensures var k, rest := BehindLastNewline(w), text[|w|..];
            var stays := stray && |w[k..] + rest| >= BUFSIZE;
            Seen(text, stray) == Pieces(text)
            <==> CarriedBytes(w) == w[k..] && Seen(w[k..] + rest, stays) == Pieces(w[k..] + rest)
  {
    hide *;
    CarriedShape(w);
    FirstSearched(text, stray);
    CompleteLines(text, w, stray);
    StaysIs(w, stray);
    var k, rest, carried := BehindLastNewline(w), text[|w|..], CarriedBytes(w);
    assert |w[k..]| == |carried|;
    assert |carried + rest| == |w[k..] + rest|;
    if stray {
      assert carried == [] == w[k..];
      assert Kept(w, stray) == carried;
    }
    var stays := stray && |w[k..] + rest| >= BUFSIZE;
    SameFront(Pieces(w[..k]), Seen(carried + rest, stays), Pieces(w[k..] + rest));
    if !stray && Seen(carried + rest, stays) == Pieces(w[k..] + rest) {
      SeenBehind(carried, w[k..], rest);
    }
  }

  lemma {:induction false} StaysIs(w: seq<byte>, stray: bool)
    requires stray ==> BehindLastNewline(w) == |w|
    ensures Stays(w, stray) <==> stray
  {
  }

  /** What a window sees of a line: 1024 bytes without a newline are one piece, and so is a shorter
      line, with a newline or at the end. */
  lemma {:induction false} PiecesMore(line: seq<byte>, rest: seq<byte>)
    requires NoNewline(line)
    ensures |line| == 1024 ==> Pieces(line + rest) == [line] + Pieces(rest)
    ensures |line| < 1024 ==> Pieces(line + [10] + rest) == [line] + Pieces(rest)
    ensures 0 < |line| <= 1024 ==> Pieces(line) == [line]
    ensures Pieces([]) == []
  {
    NothingSeen();
    if |line| == 1024 {
      FullPiece(line, rest);
      FullPiece(line, []);
      assert line + [] == line;
    } else if |line| < 1024 {
      LineEndIs(line, |line|);
      var text := line + [10] + rest;
      assert forall i :: 0 <= i < |line| ==> text[i] == line[i];
      LineEndIs(text, |line|);
      assert text[..|line|] == line && text[|line| + 1..] == rest;
    }
  }

  lemma {:induction false} FullPiece(line: seq<byte>, rest: seq<byte>)
    requires |line| == BUFSIZE && NoNewline(line)
    ensures Pieces(line + rest) == [line] + Pieces(rest)
  {
    var text := line + rest;
    assert forall i :: 0 <= i < |line| ==> text[i] == line[i];
    assert LineEnd(text) >= BUFSIZE;
    assert text[..BUFSIZE] == line && text[BUFSIZE..] == rest;
  }

  /** What the buffer holds of an unfinished line in the next window: the line up to and with its first
      NUL, and behind that what stood at the same place of the old window, its newlines made NULs. */
  lemma {:induction false} CarriedByte(w: seq<byte>, lines: seq<byte>, line: seq<byte>, i: nat)
    requires w == lines + line && NoNewline(line) && (lines == [] || lines[|lines| - 1] == 10) && i < |line|
    ensures |CarriedBytes(w)| == |line|
    ensures CarriedBytes(w)[i] == if 0 !in line[..i] then line[i] else if w[i] == 10 then 0 else w[i]
  {
    Unfinished(lines, line);
    CarriedParts(w, line);
    FirstNul(line, i);
    hide *;
    SplicedAt(line, Cleared(w), CopiedLength(line), i);
    ClearedAt(w, i);
  }

  lemma {:induction false} SplicedAt<T>(a: seq<T>, b: seq<T>, n: nat, i: nat)
    requires n <= |a| <= |b| && i < |a|
    ensures var s := a[..n] + b[n..|a|];
            |s| == |a| && s[i] == if i < n then a[i] else b[i]
  {
  }

  lemma {:induction false} ClearedAt(w: seq<byte>, i: nat)
    requires i < |w|
    ensures |Cleared(w)| == |w| && Cleared(w)[i] == if w[i] == 10 then 0 else w[i]
  {
  }

  lemma {:induction false} Unfinished(lines: seq<byte>, line: seq<byte>)
    requires NoNewline(line) && (lines == [] || lines[|lines| - 1] == 10)
    ensures BehindLastNewline(lines + line) == |lines|
    ensures (lines + line)[|lines|..] == line && (lines + line)[..|lines|] == lines
  {
    BehindLastNewlineIs(lines + line, |lines|);
  }

  lemma {:induction false} CarriedParts(w: seq<byte>, line: seq<byte>)
    requires BehindLastNewline(w) <= |w| && w[BehindLastNewline(w)..] == line
    ensures var n := CopiedLength(line);
            n <= |line| <= |w| == |Cleared(w)| && CarriedBytes(w) == line[..n] + Cleared(w)[n..|line|]
  {
  }

  lemma {:induction false} FirstNul(line: seq<byte>, i: nat)
    requires i < |line|
    ensures i < CopiedLength(line) <==> 0 !in line[..i]
  {
    var n := |CString(line)|;
    assert forall j :: 0 <= j < n ==> line[j] == CString(line)[j] != 0;
    assert n < i ==> line[..i][n] == 0;
  }

  /** One window of a search.  If it has no newline, it is searched as one line.  Else its complete lines
      are searched, and the unfinished one begins the next window as it was carried, or, with a stray
      newline behind the window, is searched right away. */
  lemma {:induction false} SeenWindow(text: seq<byte>, lines: seq<byte>, line: seq<byte>, rest: seq<byte>, stray: bool)
    requires text == lines + line + rest && |lines + line| == (if |text| < 1024 then |text| else 1024) && text != []
    requires NoNewline(line) && (lines == [] || lines[|lines| - 1] == 10)
    ensures lines == [] ==> Seen(text, stray) == [line] + Seen(rest, false)
    ensures lines != [] && !stray ==>
              Seen(text, stray) == Pieces(lines) + Seen(CarriedBytes(lines + line) + rest, false)
    ensures lines != [] && stray && line != [] ==> Seen(text, stray) == Pieces(lines) + [line] + Seen(rest, false)
    ensures lines != [] && stray && line == [] ==> Seen(text, stray) == Pieces(lines) + Seen(rest, |rest| >= 1024)
  {
    hide Seen, Pieces, CarriedBytes, BehindLastNewline, NoNewline, Kept, Searched;
    var w := lines + line;
    assert w == FirstWindow(text) && text[|w|..] == rest;
    Unfinished(lines, line);
    FirstSearched(text, stray);
    if lines == [] {
      assert w == line;
      NoNewlinePieces(text, w);
    } else {
      CompleteLines(text, w, stray);
      assert [] + rest == rest && Pieces(lines) + [] == Pieces(lines);
    }
  }

  /** For every text: the lines are searched as the window sees them if and only if each unfinished
      line arrives whole in the next window. */
  lemma {:induction false} SeenExactly(text: seq<byte>, stray: bool)
    ensures Seen(text, stray) == Pieces(text) <==> SeesAll(text, stray)
    decreases |text|
  {
    hide *;
    if text == [] {
      NothingSeen();
      SeesNothing(stray);
    } else {
      var w := FirstWindow(text);
      WindowShape(text, w);
      SeesNext(text, w, stray);
      var k, rest := BehindLastNewline(w), text[|w|..];
      if k == 0 {
        FirstSearched(text, stray);
        NoNewlinePieces(text, w);
        SeenExactly(rest, false);
        SameFront([w], Seen(rest, false), Pieces(rest));
      } else if stray && k < |w| {
        SeenWhenCut(text, w);
      } else {
        SeenWhenCarried(text, w, stray);
        SeenExactly(w[k..] + rest, stray && |w[k..] + rest| >= BUFSIZE);
      }
    }
  }

  lemma {:induction false} SeesNothing(stray: bool)
    ensures SeesAll([], stray) && Seen([], stray) == []
  {
  }

  lemma {:induction false} SeesNext(text: seq<byte>, w: seq<byte>, stray: bool)
    requires text != [] && w == FirstWindow(text)
    ensures var k, rest := BehindLastNewline(w), text[|w|..];
            if k == 0 then SeesAll(text, stray) <==> SeesAll(rest, false)
            else if stray && k < |w| then SeesAll(text, stray) <==> |text| == |w|
            else SeesAll(text, stray)
                 <==> && CarriedBytes(w) == w[k..]
                      && SeesAll(w[k..] + rest, stray && |w[k..] + rest| >= BUFSIZE)
  {
    hide SeesAll, CarriedBytes, BehindLastNewline;
    var k, rest := BehindLastNewline(w), text[|w|..];
    WindowShape(text, w);
    SeesAllIs(text, w, stray);
    assert text[k..] == w[k..] + rest;
  }

  lemma {:induction false} SeesAllIs(text: seq<byte>, w: seq<byte>, stray: bool)
    requires text != [] && w == FirstWindow(text)
    ensures var k := BehindLastNewline(w);
            var next := text[NextStart(w, stray)..];
            SeesAll(text, stray)
            <==> if stray && 0 < k < |w| then |text| == |w|
                 else (k == 0 || CarriedBytes(w) == w[k..]) && SeesAll(next, Stays(w, stray) && |next| >= BUFSIZE)
  {
  }

  lemma {:induction false} SameFront<T>(front: seq<T>, a: seq<T>, b: seq<T>)
    ensures front + a == front + b <==> a == b
  {
    assert (front + a)[|front|..] == a && (front + b)[|front|..] == b;
  }

  /** A line without a NUL, but perhaps at its end, arrives whole. */
  lemma {:induction false} CleanArrives(window: seq<byte>)
    requires Clean(window[BehindLastNewline(window)..])
    ensures CarriedBytes(window) == window[BehindLastNewline(window)..]
  {
  }

  /** A text without a NUL, but perhaps at its end, is seen as it is. */
  lemma {:induction false} CleanSeesAll(text: seq<byte>, stray: bool)
    requires Clean(text) && (stray ==> |text| < BUFSIZE)
    ensures SeesAll(text, stray)
    decreases |text|
  {
    if text != [] {
      var w := FirstWindow(text);
      CleanArrives(w);
      CleanSeesAll(text[NextStart(w, stray)..], false);
    }
  }

  // ------------------------------------------- the bytes that are delivered

  /** The contents of the program's buffer, which is not initialised. */
  type Buffer = s: seq<byte> | |s| == 1025 witness seq(1025, _ => 0)

  /** A newline stands where the first window of a text ends. */
  predicate IsStray(stale: Buffer, text: seq<byte>)
  {
    stale[|FirstWindow(text)|] == NEWLINE
  }

  /** The last read of a text asks for exactly what is left of it, so it does not deliver the byte
      that follows the text in memory.  Here stray means that a full window is followed by a newline. */
  predicate EndsWithWindow(text: seq<byte>, stray: bool)
    decreases |text|
  {
    text == [] || |text| == BUFSIZE ||
    (|text| > BUFSIZE &&
     EndsWithWindow(text[NextStart(text[..BUFSIZE], stray)..], Stays(text[..BUFSIZE], stray)))
  }

  /** The bytes the read loop is given for a file: the file, and what follows it unless the last
      read stops at its end. */
  function Delivered(text: seq<byte>, slack: seq<byte>, stray: bool): seq<byte>
  {
    if EndsWithWindow(text, stray) then text else text + slack
  }

  /** The same for what the buffer holds at the start. */
  function ReadOf(text: seq<byte>, slack: seq<byte>, stale: Buffer): seq<byte>
  {
    Delivered(text, slack, stale[BUFSIZE] == NEWLINE)
  }

  /** What grep prints for a file, whatever its bytes are. */
  function Printed(text: seq<byte>, slack: seq<byte>, stale: Buffer, pattern: seq<byte>): seq<seq<byte>>
  {
    var read := ReadOf(text, slack, stale);
    Select(Seen(read, IsStray(stale, read)), pattern)
  }

  /** The condition under which it is what the window sees in the delivered bytes. */
  predicate ArrivesWhole(text: seq<byte>, slack: seq<byte>, stale: Buffer)
  {
    var read := ReadOf(text, slack, stale);
    SeesAll(read, IsStray(stale, read))
  }

  /** A file without a NUL is seen as it is, whatever follows it in memory, unless a full window is
      followed by a newline. */
  lemma {:induction false} TextArrivesWhole(text: seq<byte>, slack: seq<byte>, stale: Buffer)
    requires NUL !in text && |slack| <= 1 && stale[BUFSIZE] != NEWLINE
    ensures ArrivesWhole(text, slack, stale)
  {
    hide EndsWithWindow, SeesAll;
    assert forall i :: 0 <= i < |text| ==> (text + slack)[i] == text[i];
    var read := ReadOf(text, slack, stale);
    CleanSeesAll(read, IsStray(stale, read));
  }

  /** The part of the last line that is searched last. */
  function LastPiece(text: seq<byte>): (piece: seq<byte>)
    ensures |piece| < BUFSIZE && NoNewline(piece)
    ensures forall i :: 0 <= i < |piece| ==> piece[i] in text
    decreases |text|
  {
    var k := LineEnd(text);
    if k >= BUFSIZE then LastPiece(text[BUFSIZE..])
    else if k == |text| then text
    else LastPiece(text[k + 1..])
  }

  /** A byte behind a line makes it match, or be printed longer. */
  predicate Shows(line: seq<byte>, b: byte, pattern: seq<byte>)
  {
    b != NUL && b != NEWLINE && Contains(line + [b], pattern)
  }

  /** A match stays a match in a longer line, and cannot reach into a trailing NUL. */
  lemma {:induction false} LongerLine(line: seq<byte>, b: byte, pattern: seq<byte>)
    requires pattern != []
    ensures Contains(line, pattern) ==> Contains(line + [b], pattern)
    ensures b == NUL && NUL !in pattern && Contains(line + [b], pattern) ==> Contains(line, pattern)
  {
    var longer := line + [b];
    assert longer[0..|line|] == line;
    if Contains(line, pattern) {
      PartContains(longer, 0, |line|, pattern);
    }
    if b == NUL && NUL !in pattern && Contains(longer, pattern) {
      var k :| 0 <= k < |longer| && MatchAt(longer, k, pattern);
      assert longer[k..k + |pattern|][|pattern| - 1] == longer[k + |pattern| - 1];
      assert longer[k..k + |pattern|] == line[k..k + |pattern|];
      assert MatchAt(line, k, pattern);
    }
  }

  /** One byte behind the last line changes what is printed for it exactly when it shows. */
  lemma {:induction false} SelectLonger(line: seq<byte>, b: byte, pattern: seq<byte>)
    requires NUL !in line && NUL !in pattern && pattern != [] && b != NEWLINE
    ensures Select([line + [b]], pattern) == Select([line], pattern) <==> !Shows(line, b, pattern)
  {
    hide Contains, Select;
    var longer := line + [b];
    SelectOne(line, pattern);
    SelectOne(longer, pattern);
    LongerLine(line, b, pattern);
    CStringIs(line, |line|);
    CStringIs(longer, if b == NUL then |line| else |longer|);
    assert longer[..|line|] == line == line[..|line|] && longer[..|longer|] == longer;
  }

  lemma {:induction false} LastPieceIs(text: seq<byte>)
    ensures var k := LineEnd(text);
            LastPiece(text) == if k >= BUFSIZE then LastPiece(text[BUFSIZE..])
                               else if k == |text| then text
                               else LastPiece(text[k + 1..])
  {
  }

  /** The same for the last line of a text, which is searched in pieces. */
  lemma {:induction false} SlackShows(text: seq<byte>, b: byte, pattern: seq<byte>)
    requires NUL !in text && NUL !in pattern && pattern != []
    ensures WindowMatches(text + [b], pattern) == WindowMatches(text, pattern) <==> !Shows(LastPiece(text), b, pattern)
    decreases |text|
  {
    LastPieceIs(text);
    hide Pieces, Shows, WindowMatches, LastPiece, Select;
    var longer := text + [b];
    var k := LineEnd(text);
    if k < |text| && k < BUFSIZE {
      assert longer[..k] == text[..k] && longer[k + 1..] == text[k + 1..] + [b];
      PieceStep(text, k, pattern);
      PieceStep(longer, k, pattern);
      SlackShows(text[k + 1..], b, pattern);
      SameFront(Select([text[..k]], pattern), WindowMatches(longer[k + 1..], pattern),
                WindowMatches(text[k + 1..], pattern));
    } else if k >= BUFSIZE {
      assert text[..k][..BUFSIZE] == text[..BUFSIZE];
      assert longer[..BUFSIZE] == text[..BUFSIZE] && longer[BUFSIZE..] == text[BUFSIZE..] + [b];
      FullPieceStep(text, pattern);
      FullPieceStep(longer, pattern);
      SlackShows(text[BUFSIZE..], b, pattern);
      SameFront(Select([text[..BUFSIZE]], pattern), WindowMatches(longer[BUFSIZE..], pattern),
                WindowMatches(text[BUFSIZE..], pattern));
    } else {
      assert text[..k] == text;
      SlackBehindLastLine(text, b, pattern);
    }
  }

  lemma {:induction false} SlackBehindLastLine(text: seq<byte>, b: byte, pattern: seq<byte>)
    requires |text| < BUFSIZE && NoNewline(text) && NUL !in text && NUL !in pattern && pattern != []
    ensures WindowMatches(text + [b], pattern) == WindowMatches(text, pattern) <==> !Shows(LastPiece(text), b, pattern)
  {
    hide WindowMatches, Contains;
    LineEndIs(text, |text|);
    OnePiece(text, pattern);
    var longer := text + [b];
    if b == NEWLINE {
      PieceStep(longer, |text|, pattern);
      assert longer[..|text|] == text && longer[|text| + 1..] == [];
    } else {
      OnePiece(longer, pattern);
      SelectLonger(text, b, pattern);
    }
  }

  /** For every byte that may follow a text in memory: the window finds exactly the matching lines of
      the text if and only if no line longer than the window matches, and that byte is not read, or
      does not show behind the last line. */
  lemma {:induction false} DeliveredIsExact(text: seq<byte>, b: byte, stray: bool, pattern: seq<byte>)
    requires NUL !in text && NUL !in pattern && pattern != []
    ensures WindowMatches(Delivered(text, [b], stray), pattern) == Matches(text, pattern)
            <==> && NoLongMatch(Lines(text), pattern)
                 && (EndsWithWindow(text, stray) || !Shows(LastPiece(text), b, pattern))
  {
    hide WindowMatches, NoLongMatch, Shows;
    WindowIsExact(text, pattern);
    SlackShows(text, b, pattern);
    if !NoLongMatch(Lines(text), pattern) {
      LongMatchIsNotPrinted(text, Delivered(text, [b], stray), pattern);
    }
  }

  /** What is printed for a text that arrives whole is its matching lines under the same condition. */
  lemma {:induction false} PrintedIsExact(text: seq<byte>, b: byte, stale: Buffer, pattern: seq<byte>)
    requires NUL !in text && NUL !in pattern && pattern != [] && ArrivesWhole(text, [b], stale)
    ensures Printed(text, [b], stale, pattern) == Matches(text, pattern)
            <==> && NoLongMatch(Lines(text), pattern)
                 && (EndsWithWindow(text, stale[BUFSIZE] == NEWLINE) || !Shows(LastPiece(text), b, pattern))
  {
    hide Seen, SeesAll, NoLongMatch, Shows, Matches, Delivered, EndsWithWindow, Select;
    var read := ReadOf(text, [b], stale);
    SeenExactly(read, IsStray(stale, read));
    DeliveredIsExact(text, b, stale[BUFSIZE] == NEWLINE, pattern);
  }

  /** For every file, also with NULs: what is printed is its matching lines when it arrives whole, its
      last read stops at its end, and no line longer than the window matches. */
  lemma {:induction false} WholeFileIsPrinted(text: seq<byte>, slack: seq<byte>, stale: Buffer, pattern: seq<byte>)
    requires ArrivesWhole(text, slack, stale) && EndsWithWindow(text, stale[BUFSIZE] == NEWLINE)
    requires NoLongMatch(Lines(text), pattern)
    ensures Printed(text, slack, stale, pattern) == Matches(text, pattern)
  {
    hide Seen, SeesAll, NoLongMatch, Matches, EndsWithWindow, Select;
    SeenExactly(text, IsStray(stale, text));
    NoLongMatchNoDifference(text, pattern);
  }

  /** The byte behind a file of one letter makes a line match that does not. */
  lemma {:induction false} SlackIsPrinted(stale: Buffer)
    ensures Matches([97], [98]) == []
    ensures Printed([97], [98], stale, [98]) == [[97, 98]]
  {
    hide Seen, Select, Matches, EndsWithWindow;
    LetterIsNotFound();
    ShortTextGoesOn([97], stale[BUFSIZE] == NEWLINE);
    var read := ReadOf([97], [98], stale);
    assert read == [97] + [98] == [97, 98];
    TwoLettersSeen(read, IsStray(stale, read));
    SecondLetterIsFound(read);
  }

  lemma {:induction false} ShortTextGoesOn(text: seq<byte>, stray: bool)
    requires 0 < |text| < BUFSIZE
    ensures !EndsWithWindow(text, stray)
  {
  }

  lemma {:induction false} SecondLetterIsFound(line: seq<byte>)
    requires line == [97, 98]
    ensures Select([line], [98]) == [line]
  {
    hide Select, Contains;
    SelectOne(line, [98]);
    HasLetter(line, 1, 98);
    CStringIs(line, 2);
    assert line[..2] == line;
  }

  /** A file whose only match is in a line that begins with a NUL and goes on behind the first window. */
  predicate HasLateMatch(text: seq<byte>)
  {
    && |text| == BUFSIZE + 1 && text[0] == NEWLINE && text[1] == NUL && text[BUFSIZE - 1] == 98
    && forall i :: 2 <= i < |text| && i != BUFSIZE - 1 ==> text[i] == 99
  }

  /** Its line is carried only up to the NUL, so the match is lost. */
  lemma {:induction false} NulLosesMatch(text: seq<byte>, slack: seq<byte>, stale: Buffer)
    requires HasLateMatch(text) && stale[BUFSIZE] != NEWLINE
    ensures Matches(text, [98]) == [[]]
    ensures Printed(text, slack, stale, [98]) == []
  {
    LateMatchIsPromised(text);
    var w := text[..BUFSIZE];
    assert NoNewline(w[1..]) by {
      assert forall i :: 0 <= i < |w| - 1 ==> w[1..][i] == text[i + 1];
    }
    BehindLastNewlineIs(w, 1);
    ReadsAll(text, slack, stale);
    LateMatchIsLost(text, w);
    hide Seen, Select, Matches, Delivered;
  }

  lemma {:induction false} ReadsAll(text: seq<byte>, slack: seq<byte>, stale: Buffer)
    requires HasLateMatch(text) && BehindLastNewline(text[..BUFSIZE]) == 1 && stale[BUFSIZE] != NEWLINE
    ensures ReadOf(text, slack, stale) == text && !IsStray(stale, text)
  {
    ShortTextEnds(text[1..], false);
  }

  lemma {:induction false} ShortTextEnds(text: seq<byte>, stray: bool)
    requires |text| == BUFSIZE
    ensures EndsWithWindow(text, stray)
  {
  }

  lemma {:induction false} LateMatchIsPromised(text: seq<byte>)
    requires HasLateMatch(text)
    ensures Matches(text, [98]) == [[]]
  {
    var line := text[1..];
    LineEndIs(text, 0);
    LineEndIs(line, BUFSIZE);
    assert Lines(line) == [line] && Lines(text) == [text[..0]] + [line];
    hide Contains, Select, Lines;
    SelectConcat([text[..0]], [line], [98]);
    SelectOne(text[..0], [98]);
    SelectOne(line, [98]);
    LacksLetter(text[..0], 98);
    HasLetter(line, BUFSIZE - 2, 98);
    CStringIs(line, 0);
  }

  lemma {:induction false} HasLetter(line: seq<byte>, k: nat, b: byte)
    requires k < |line| && line[k] == b
    ensures Contains(line, [b])
  {
    assert line[k..k + 1] == [line[k]];
    assert MatchAt(line, k, [b]);
  }

  lemma {:induction false} LacksLetter(line: seq<byte>, b: byte)
    requires b !in line
    ensures !Contains(line, [b])
  {
    assert forall k :: 0 <= k < |line| ==> MatchAt(line, k, [b]) ==> line[k..k + 1][0] == b == line[k];
  }

  lemma {:induction false} OneLine(line: seq<byte>)
    requires |line| < BUFSIZE && NoNewline(line)
    ensures Pieces(line + [NEWLINE]) == [line]
  {
    var text := line + [NEWLINE];
    LineEndIs(text, |line|);
    NothingSeen();
    assert text[..|line|] == line && text[|line| + 1..] == [];
  }

  lemma {:induction false} LateMatchIsLost(text: seq<byte>, w: seq<byte>)
    requires HasLateMatch(text) && w == text[..BUFSIZE] && BehindLastNewline(w) == 1
    ensures Select(Seen(text, false), [98]) == []
  {
    var next := CarriedBytes(w) + text[BUFSIZE..];
    LateCarry(text, w);
    OneLine([]);
    assert w[..1] == [] + [NEWLINE];
    hide Contains, Select, Pieces, CarriedBytes;
    FirstSearched(text, false);
    assert Searched(w, false) == [[]] + [];
    BehindLastNewlineIs(next, 0);
    FirstSearched(next, false);
    NoNewlinePieces(next, next);
    assert next[|next|..] == [];
    assert Seen(next, false) == [next];
    SelectConcat([[]], [next], [98]);
    SelectOne([], [98]);
    SelectOne(next, [98]);
    LacksLetter([], 98);
    LacksLetter(next, 98);
  }

  lemma {:induction false} LateCarry(text: seq<byte>, w: seq<byte>)
    requires HasLateMatch(text) && w == text[..BUFSIZE] && BehindLastNewline(w) == 1
    ensures var next := CarriedBytes(w) + text[BUFSIZE..];
            |next| == BUFSIZE && NoNewline(next[0..]) && 98 !in next
  {
    CStringIs(w[1..], 0);
    assert CopiedLength(w[1..]) == 1;
    var next := CarriedBytes(w) + text[BUFSIZE..];
    forall i | 0 <= i < BUFSIZE
      ensures next[i] == NUL || next[i] == 99
    {
      if i == 0 {
        assert next[0] == w[1..][..1][0];
      } else if i < BUFSIZE - 1 {
        assert next[i] == Cleared(w)[1..BUFSIZE - 1][i - 1] == w[i];
      }
    }
  }

  lemma {:induction false} LetterIsNotFound()
    ensures Matches([97], [98]) == []
  {
    LineEndIs([97], 1);
    assert Lines([97]) == [[97]];
    SelectOne([97], [98]);
  }

  lemma {:induction false} TwoLettersSeen(read: seq<byte>, stray: bool)
    requires read == [97, 98]
    ensures Seen(read, stray) == [read]
  {
    BehindLastNewlineIs(read, 0);
    NoNewlinePieces(read, read);
    assert Seen([], false) == [];
  }

  // ---------------------------------------------------------------- program

  /** An open file as the read system call presents it.  A read that asks for more than what is
      left may also deliver what follows the end of the file (stream is then one byte longer than
      the file); a read that starts at or after the end delivers nothing. */
  class Descriptor {
    const stream: seq<byte>
    const length: nat
    const readable: bool
    var pos: nat

    ghost predicate Valid()
      reads this
    {
      length <= |stream| <= length + 1 && pos <= |stream|
    }

    constructor (stream: seq<byte>, length: nat, readable: bool)
      requires length <= |stream| <= length + 1
      ensures Valid() && this.stream == stream && this.length == length && this.readable == readable && pos == 0
    {
      this.stream, this.length, this.readable, pos := stream, length, readable, 0;
    }

    method Read(data: array<byte>, off: nat, n: nat) returns (cnt: int)
      requires Valid() && off + n <= data.Length
      modifies this`pos, data
      ensures Valid()
      ensures cnt == if !readable then -1 else if old(pos) >= length then 0
                     else if n < |stream| - old(pos) then n else |stream| - old(pos)
      ensures pos == if cnt < 0 then old(pos) else old(pos) + cnt
      ensures cnt >= 0 ==> data[off..off + cnt] == stream[old(pos)..old(pos) + cnt]
      ensures forall i :: 0 <= i < data.Length && !(off <= i < off + cnt) ==> data[i] == old(data[i])
    {
      if !readable {
        return -1;
      }
      cnt := 0;
      if pos >= length {
        return;
      }
      while cnt < n && pos + cnt < |stream|
        invariant 0 <= cnt <= n && pos + cnt <= |stream| && pos == old(pos)
        invariant data[off..off + cnt] == stream[pos..pos + cnt]
        invariant forall i :: 0 <= i < data.Length && !(off <= i < off + cnt) ==> data[i] == old(data[i])
      {
        ghost var before := data[off..off + cnt];
        data[off + cnt] := stream[pos + cnt];
        assert data[off..off + cnt] == before;
        assert data[off..off + cnt + 1] == before + [stream[pos + cnt]];
        cnt := cnt + 1;
      }
      pos := pos + cnt;
    }
  }

  /** ece391_strlen of the string at data + from */
  method Strlen(data: array<byte>, from: nat) returns (len: nat)
    requires exists i :: from <= i < data.Length && data[i] == NUL
    ensures from + len < data.Length && data[from..from + len] == CString(data[from..])
  {
    ghost var end :| from <= end < data.Length && data[end] == NUL;
    len := 0;
    while data[from + len] != NUL
      invariant from + len <= end
      invariant forall i :: from <= i < from + len ==> data[i] != NUL
      decreases data.Length - len
    {
      len := len + 1;
    }
    CStringIs(data[from..], len);
    assert data[from..][..len] == data[from..from + len];
  }

  /** ece391_strncmp of the string at data + off with a pattern of n bytes */
  method Strncmp(data: array<byte>, off: nat, pattern: seq<byte>, n: nat) returns (r: int)
    requires n == |pattern| && NUL !in pattern
    requires exists i :: off <= i < data.Length && data[i] == NUL
    ensures r == 0 <==> off + n <= data.Length && data[off..off + n] == pattern
  {
    if n == 0 {
      return 0;
    }
    ghost var end :| off <= end < data.Length && data[end] == NUL;
    var i := 0;
    while data[off + i] == pattern[i]
      invariant 0 <= i < n && off + i <= end
      invariant data[off..off + i] == pattern[..i]
      decreases n - i
    {
      if i + 1 == n {
        return 0;
      }
      i := i + 1;
    }
    assert off + n <= data.Length ==> data[off..off + n][i] == data[off + i];
    r := data[off + i] as int - pattern[i] as int;
  }

  /** ece391_strcpy of the string at data + src to the lower address data */
  method Strcpy(data: array<byte>, src: nat) returns (ghost len: nat)
    requires exists i :: src <= i < data.Length && data[i] == NUL
    requires src > 0
    modifies data
    ensures src + len < data.Length && old(data[src + len]) == NUL
    ensures forall i :: src <= i < src + len ==> old(data[i]) != NUL
    ensures data[..len + 1] == old(data[src..src + len + 1])
    ensures forall i :: len < i < data.Length ==> data[i] == old(data[i])
  {
    ghost var end :| src <= end < data.Length && data[end] == NUL;
    ghost var start := data[..];
    var i := 0;
    while data[src + i] != NUL
      invariant src + i <= end && start[end] == NUL
      invariant forall k :: src <= k < src + i ==> start[k] != NUL
      invariant forall k :: 0 <= k < i ==> data[k] == start[src + k]
      invariant forall k :: i <= k < data.Length ==> data[k] == start[k]
      decreases data.Length - i
    {
      data[i] := data[src + i];
      i := i + 1;
    }
    data[i] := NUL;
    len := i;
    ArraySlice(data, 0, len + 1);
    CopiedFront(start, data[..], src, len + 1);
  }

  lemma {:induction false} CopiedFront<T>(before: seq<T>, after: seq<T>, src: nat, n: nat)
    requires src + n <= |before| == |after| && forall k :: 0 <= k < n ==> after[k] == before[src + k]
    ensures after[..n] == before[src..src + n]
  {
  }

  /** The bytes ece391_fdputs writes for the line at lineStart. */
  method LineToPrint(data: array<byte>, lineStart: nat, lineEnd: nat) returns (record: seq<byte>)
    requires lineStart <= lineEnd < data.Length && data[lineEnd] == NUL
    ensures record == CString(data[lineStart..lineEnd])
  {
    var len := Strlen(data, lineStart);
    CStringCut(data[lineStart..], lineEnd - lineStart);
    assert data[lineStart..][..lineEnd - lineStart] == data[lineStart..lineEnd];
    record := data[lineStart..lineStart + len];
  }

  /** Searches one terminated line and returns what is printed for it. */
  method SearchLine(data: array<byte>, lineStart: nat, lineEnd: nat, pattern: seq<byte>)
    returns (records: seq<seq<byte>>)
    requires lineStart <= lineEnd < data.Length && data[lineEnd] == NUL && NUL !in pattern
    ensures records == Select([data[lineStart..lineEnd]], pattern)
  {
    hide Select, MatchAt;
    ghost var line := data[lineStart..lineEnd];
    var check := lineStart;
    while check < lineEnd
      invariant lineStart <= check <= lineEnd
      invariant forall k :: 0 <= k < check - lineStart ==> !MatchAt(line, k, pattern)
    {
      var r := -1;
      if (if pattern == [] then NUL else pattern[0]) == data[check] {
        r := Strncmp(data, check, pattern, |pattern|);
      }
      HitIsMatch(data, lineStart, lineEnd, check, pattern);
      if r == 0 {
        assert MatchAt(line, check - lineStart, pattern);
        SelectOne(line, pattern);
        var record := LineToPrint(data, lineStart, lineEnd);
        return [record];
      }
      check := check + 1;
    }
    SelectOne(line, pattern);
    records := [];
  }

  /** Comparing in the buffer is comparing in the line, because the line is terminated. */
  lemma {:induction false} HitIsMatch(data: array<byte>, lineStart: nat, lineEnd: nat, check: nat, pattern: seq<byte>)
    requires lineStart <= check < lineEnd < data.Length && data[lineEnd] == NUL && NUL !in pattern
    ensures MatchAt(data[lineStart..lineEnd], check - lineStart, pattern)
            <==> && (if pattern == [] then NUL else pattern[0]) == data[check]
                 && check + |pattern| <= data.Length && data[check..check + |pattern|] == pattern
  {
    var n := |pattern|;
    if check + n <= lineEnd {
      SliceOfSlice(data[..], lineStart, lineEnd, check - lineStart, check - lineStart + n);
    } else if check + n <= data.Length {
      assert data[check..check + n][lineEnd - check] == data[lineEnd];
    }
    if n > 0 && check + n <= data.Length {
      assert data[check..check + n][0] == data[check];
    }
  }

  lemma {:induction false} CStringCut(s: seq<byte>, n: nat)
    requires n < |s| && s[n] == NUL
    ensures CString(s) == CString(s[..n])
  {
    var r := CString(s[..n]);
    assert forall i :: 0 <= i < |r| ==> r[i] == s[i];
    CStringIs(s, |r|);
  }

  /** What the terminal shows for a list of matching lines. */
  function Render(fname: seq<byte>, records: seq<seq<byte>>): seq<byte>
  {
    if records == [] then []
    else fname + [58] + records[0] + [NEWLINE] + Render(fname, records[1..])
  }

  lemma {:induction false} NothingRendered(fname: seq<byte>)
    ensures Render(fname, []) == []
  {
  }

  lemma {:induction false} RenderConcat(fname: seq<byte>, a: seq<seq<byte>>, b: seq<seq<byte>>)
    ensures Render(fname, a + b) == Render(fname, a) + Render(fname, b)
  {
    if a == [] {
      assert a + b == b;
    } else {
      assert (a + b)[1..] == a[1..] + b;
      RenderConcat(fname, a[1..], b);
    }
  }

  /** Finds the end of the line that starts at lineStart. */
  method ScanLine(data: array<byte>, lineStart: nat, last: nat) returns (lineEnd: nat)
    requires lineStart <= last < data.Length
    ensures lineStart <= lineEnd <= last
    ensures NoNewline(data[lineStart..lineEnd])
    ensures lineEnd < last ==> data[lineEnd] == NEWLINE
  {
    lineEnd := lineStart;
    while lineEnd < last && data[lineEnd] != NEWLINE
      invariant lineStart <= lineEnd <= last
      invariant forall i :: lineStart <= i < lineEnd ==> data[i] != NEWLINE
    {
      lineEnd := lineEnd + 1;
    }
  }

  lemma {:induction false} LineCopied(before: seq<byte>, after: seq<byte>, from: nat, to: nat, len: nat)
    requires 0 < from <= to < |before| == |after| && from + len <= to && before[to] == before[from + len] == NUL
    requires NUL !in before[from..from + len]
    requires after[..len + 1] == before[from..from + len + 1]
    requires forall i :: len < i < |after| ==> after[i] == before[i]
    ensures var line := before[from..to];
            var n := CopiedLength(line);
            after[..n] == line[..n] && after[n..|line|] == before[n..|line|]
  {
    var line := before[from..to];
    assert forall i :: 0 <= i < len ==> line[i] == before[from..from + len][i];
    CStringIs(line, len);
    var n := CopiedLength(line);
    assert after[..n] == after[..len + 1][..n];
    SliceOfSlice(before, from, from + len + 1, 0, n);
    SliceOfSlice(before, from, to, 0, n);
  }

  /** Moves an unfinished line to the front of the buffer; behind a NUL the old bytes stay there, so it
      arrives whole exactly when they are the line's own. */
  method CarryPartial(data: array<byte>, lineStart: nat, lineEnd: nat)
    requires 0 < lineStart <= lineEnd < data.Length
    modifies data
    ensures var line := old(data[lineStart..lineEnd]);
            var n := CopiedLength(line);
            && data[..n] == line[..n] && data[n..|line|] == old(data[..])[n..|line|]
            && (data[..|line|] == line <==> line[n..] == old(data[..])[n..|line|])
            && (forall i :: |line| <= i < data.Length ==> data[i] == old(data[i]) || data[i] == NUL)
    ensures data[lineEnd] == NUL
  {
    hide CopiedLength;
    ghost var start, line := data[..], data[lineStart..lineEnd];
    ArraySlice(data, lineStart, lineEnd);
    ghost var n := CopiedLengthOf(line);
    data[lineEnd] := NUL;
    ghost var before := data[..];
    assert before == start[lineEnd := NUL];
    SetBehind(start, lineEnd, NUL, lineStart, lineEnd);
    SetBehind(start, lineEnd, NUL, n, |line|);
    ghost var len := Strcpy(data, lineStart);
    LineCopied(before, data[..], lineStart, lineEnd, len);
    ArraySlice(data, 0, n);
    ArraySlice(data, n, |line|);
    ArraySlice(data, 0, |line|);
    TakeSlice(data[..], |line|, 0, n);
    TakeSlice(data[..], |line|, n, |line|);
    ArrivesExactly(line, data[..|line|], n);
  }

  lemma {:induction false} CopiedLengthOf(line: seq<byte>) returns (n: nat)
    ensures n == CopiedLength(line) <= |line|
  {
    n := CopiedLength(line);
  }

  lemma {:induction false} ArrivesExactly(line: seq<byte>, front: seq<byte>, n: nat)
    requires n <= |line| == |front| && front[0..n] == line[..n]
    ensures front == line <==> line[n..] == front[n..|line|]
  {
    assert front == front[..n] + front[n..] && line == line[..n] + line[n..];
  }

  /** Terminates the line in the buffer and prints it if it matches. */
  method FinishLine(data: array<byte>, lineStart: nat, lineEnd: nat, pattern: seq<byte>, fname: seq<byte>)
    returns (console: seq<byte>, ghost hits: seq<seq<byte>>)
    requires lineStart <= lineEnd < data.Length && NUL !in pattern
    modifies data
    ensures hits == Select([old(data[lineStart..lineEnd])], pattern) && console == Render(fname, hits)
    ensures data[lineEnd] == NUL && forall i :: 0 <= i < data.Length && i != lineEnd ==> data[i] == old(data[i])
  {
    ghost var piece := data[lineStart..lineEnd];
    data[lineEnd] := NUL;
    assert data[lineStart..lineEnd] == piece;
    var found := SearchLine(data, lineStart, lineEnd, pattern);
    console, hits := if found == [] then [] else fname + [58] + found[0] + [NEWLINE], found;
    assert found != [] ==> found == [found[0]] && console == console + Render(fname, found[1..]);
  }

  /** The next line of a window that was searched up to lineStart. */
  lemma {:induction false} NextLine(w: seq<byte>, lineStart: nat, lineEnd: nat)
    requires lineStart <= lineEnd < |w| <= BUFSIZE && (lineStart == 0 || w[lineStart - 1] == NEWLINE)
    requires NoNewline(w[lineStart..lineEnd]) && w[lineEnd] == NEWLINE
    ensures Pieces(w[..lineEnd + 1]) == Pieces(w[..lineStart]) + [w[lineStart..lineEnd]]
  {
    hide Pieces;
    var front, line := w[..lineEnd + 1], w[lineStart..lineEnd];
    assert lineStart > 0 ==> front[lineStart - 1] == w[lineStart - 1];
    PiecesConcat(front, lineStart);
    assert front[..lineStart] == w[..lineStart] && front[lineStart..] == line + [NEWLINE];
    OneLine(line);
  }

  /** The front of the buffer when a window was searched up to n. */
  ghost predicate IsSearched(front: seq<byte>, w: seq<byte>, n: nat)
  {
    n <= |w| && front == Cleared(w)[..n] + w[n..]
  }

  lemma {:induction false} NothingIsSearched(w: seq<byte>)
    ensures IsSearched(w, w, 0)
  {
  }

  /** The line that a scan finds is the window's. */
  lemma {:induction false} LineOf(front: seq<byte>, w: seq<byte>, lineStart: nat, lineEnd: nat)
    requires IsSearched(front, w, lineStart) && lineStart <= lineEnd <= |w|
    ensures |front| == |w| && front[lineStart..lineEnd] == w[lineStart..lineEnd]
    ensures lineEnd < |w| ==> front[lineEnd] == w[lineEnd]
  {
    assert front[lineStart..] == w[lineStart..];
    assert front[lineStart..][..lineEnd - lineStart] == front[lineStart..lineEnd];
    assert w[lineStart..][..lineEnd - lineStart] == w[lineStart..lineEnd];
  }

  /** Searching a line replaces its newline by a NUL. */
  lemma {:induction false} NextIsSearched(w: seq<byte>, lineStart: nat, lineEnd: nat, front: seq<byte>)
    requires lineStart <= lineEnd < |w| && IsSearched(front, w, lineStart)
    requires NoNewline(w[lineStart..lineEnd]) && w[lineEnd] == NEWLINE
    ensures |front| == |w| && IsSearched(front[lineEnd := NUL], w, lineEnd + 1)
  {
    var r := Cleared(w)[..lineEnd + 1] + w[lineEnd + 1..];
    forall i | 0 <= i < |w|
      ensures front[lineEnd := NUL][i] == r[i]
    {
      assert lineStart <= i < lineEnd ==> w[i] == w[lineStart..lineEnd][i - lineStart];
    }
  }

  lemma {:induction false} ClearedNow(w: seq<byte>, front: seq<byte>)
    requires IsSearched(front, w, |w|)
    ensures NoNewline(front)
  {
  }

  lemma {:induction false} AllIsSearched(w: seq<byte>, lineStart: nat, front: seq<byte>)
    requires IsSearched(front, w, lineStart) && NoNewline(w[lineStart..])
    ensures IsSearched(front, w, |w|) && front == Cleared(w) && |front| == |w| && NoNewline(front)
  {
    assert forall i :: lineStart <= i < |w| ==> w[i] == w[lineStart..][i - lineStart];
  }

  /** The last line of a window, when no newline ends it. */
  lemma {:induction false} LastLine(w: seq<byte>, lineStart: nat)
    requires lineStart <= |w| && (lineStart == 0 || w[lineStart - 1] == NEWLINE) && NoNewline(w[lineStart..])
    ensures BehindLastNewline(w) == lineStart
  {
    BehindLastNewlineIs(w, lineStart);
  }

  /** A pass that ends at an unfinished line searches it when it may not be carried. */
  lemma {:induction false} PassEnds(w: seq<byte>, stray: bool, lineStart: nat, pattern: seq<byte>)
    requires BehindLastNewline(w) == lineStart && (lineStart == 0 || stray || lineStart == |w|)
    ensures Kept(w, stray) == []
    ensures Select(Searched(w, stray), pattern)
            == Select(Pieces(w[..lineStart]), pattern)
               + if lineStart < |w| then Select([w[lineStart..]], pattern) else []
  {
    hide Select, Pieces;
    SelectConcat(Pieces(w[..lineStart]), [w[lineStart..]], pattern);
    assert Pieces(w[..lineStart]) + [] == Pieces(w[..lineStart]);
    assert Select(Pieces(w[..lineStart]), pattern) + [] == Select(Pieces(w[..lineStart]), pattern);
    assert |Kept(w, stray)| == 0;
  }

  /** A pass that carries the unfinished line has searched those before it. */
  lemma {:induction false} PassCarries(w: seq<byte>, lineStart: nat, front: seq<byte>)
    requires BehindLastNewline(w) == lineStart && 0 < lineStart
    requires var line := w[lineStart..];
             var n := CopiedLength(line);
             |front| == |line| && front[..n] == line[..n] && front[n..] == Cleared(w)[n..|line|]
    ensures Kept(w, false) == front && Searched(w, false) == Pieces(w[..lineStart]) && NoNewline(front)
  {
    hide CopiedLength, Pieces;
    var n := CopiedLength(w[lineStart..]);
    assert front == front[..n] + front[n..];
    assert Kept(w, false) == CarriedBytes(w);
  }

  lemma {:induction false} PassStarts(w: seq<byte>, pattern: seq<byte>)
    ensures InPass(w, w, 0, [], pattern)
  {
    NothingIsSearched(w);
    assert w[..0] == [];
  }

  /** What one more line of a window adds to what is found. */
  lemma {:induction false} NextFound(w: seq<byte>, lineStart: nat, lineEnd: nat, pattern: seq<byte>)
    requires lineStart <= lineEnd < |w| <= BUFSIZE && (lineStart == 0 || w[lineStart - 1] == NEWLINE)
    requires NoNewline(w[lineStart..lineEnd]) && w[lineEnd] == NEWLINE
    ensures Select(Pieces(w[..lineEnd + 1]), pattern)
            == Select(Pieces(w[..lineStart]), pattern) + Select([w[lineStart..lineEnd]], pattern)
  {
    hide Pieces, Select;
    NextLine(w, lineStart, lineEnd);
    SelectConcat(Pieces(w[..lineStart]), [w[lineStart..lineEnd]], pattern);
  }

  /** A pass that ends with a line that no newline of the window ends. */
  lemma {:induction false} UnfinishedPass(w: seq<byte>, stray: bool, lineStart: nat, atEnd: bool, pattern: seq<byte>)
    requires lineStart <= |w| && (lineStart < |w| || w == []) && NoNewline(w[lineStart..|w|])
    requires (lineStart == 0 || w[lineStart - 1] == NEWLINE) && (lineStart == 0 || stray || atEnd)
    requires atEnd ==> NoNewline(w)
    ensures Kept(w, stray) == [] && (w != [] ==> !Stays(w, stray))
    ensures Select(Searched(w, stray), pattern)
            == Select(Pieces(w[..lineStart]), pattern) + Select([w[lineStart..|w|]], pattern)
  {
    hide Select, Pieces, Searched, Kept, BehindLastNewline;
    assert w[lineStart..|w|] == w[lineStart..];
    LastLine(w, lineStart);
    PassEnds(w, stray, lineStart, pattern);
    SelectOne([], pattern);
  }

  lemma {:induction false} FinishedPass(w: seq<byte>, stray: bool, pattern: seq<byte>)
    requires w != [] && w[|w| - 1] == NEWLINE
    ensures Kept(w, stray) == [] && Select(Searched(w, stray), pattern) == Select(Pieces(w), pattern)
    ensures Stays(w, stray) <==> stray
  {
    hide Select, Pieces, Searched, Kept, BehindLastNewline;
    LastLine(w, |w|);
    PassEnds(w, stray, |w|, pattern);
    assert w[..|w|] == w;
  }

  /** Carries the unfinished line of a window. */
  method CarryLine(data: array<byte>, lineStart: nat, full: nat, ghost w: seq<byte>) returns (last: nat)
    requires 0 < lineStart < full == |w| < data.Length && w[lineStart - 1] == NEWLINE
    requires IsSearched(data[..full], w, lineStart) && NoNewline(w[lineStart..full])
    modifies data
    ensures last <= full && data[..last] == Kept(w, false) && NoNewline(data[..full])
    ensures Searched(w, false) == Pieces(w[..lineStart]) && data[full] == NUL && !Stays(w, false)
  {
    hide Pieces, CopiedLength, Kept, Searched, Stays, IsSearched, NoNewline;
    assert w[lineStart..full] == w[lineStart..];
    ghost var before := data[..];
    ArraySlice(data, lineStart, full);
    ArraySlice(data, 0, full);
    TakeSlice(before, full, lineStart, full);
    LineOf(before[..full], w, lineStart, full);
    AllIsSearched(w, lineStart, before[..full]);
    CarryPartial(data, lineStart, full);
    last := full - lineStart;
    ghost var n := CopiedLength(w[lineStart..]);
    ArraySlice(data, 0, n);
    ArraySlice(data, n, last);
    CarriedIs(w, lineStart, before, data[..]);
    ArraySlice(data, 0, last);
    ArraySlice(data, 0, full);
  }

  lemma {:induction false} CarriedIs(w: seq<byte>, lineStart: nat, before: seq<byte>, after: seq<byte>)
    requires 0 < lineStart < |w| < |before| == |after| && w[lineStart - 1] == NEWLINE
    requires NoNewline(w[lineStart..]) && before[..|w|] == Cleared(w)
    requires var line := w[lineStart..];
             var n := CopiedLength(line);
             && after[..n] == line[..n] && after[n..|line|] == before[n..|line|]
             && forall i :: |line| <= i < |after| ==> after[i] == before[i] || after[i] == NUL
    ensures after[..|w| - lineStart] == Kept(w, false) && NoNewline(after[..|w|]) && !Stays(w, false)
    ensures Searched(w, false) == Pieces(w[..lineStart])
  {
    hide Pieces, CopiedLength, Kept, Searched;
    var line := w[lineStart..];
    var n := CopiedLength(line);
    LastLine(w, lineStart);
    TakeSlice(before, |w|, n, |line|);
    TakeSlice(after, |line|, 0, n);
    TakeSlice(after, |line|, n, |line|);
    assert after[..|line|][..n] == after[..n] && after[..|line|][n..] == after[n..|line|];
    PassCarries(w, lineStart, after[..|line|]);
    forall i | 0 <= i < |w|
      ensures after[i] != NEWLINE
    {
      assert before[i] == before[..|w|][i];
      assert i < |line| ==> after[i] == after[..|line|][i];
    }
  }

  /** Searches the line at lineStart in a window of which the lines before it are searched. */
  method SearchNextLine(data: array<byte>, lineStart: nat, lineEnd: nat, pattern: seq<byte>, fname: seq<byte>,
                        ghost w: seq<byte>)
    returns (console: seq<byte>, ghost hits: seq<seq<byte>>)
    requires lineStart <= lineEnd <= |w| <= BUFSIZE < data.Length && NUL !in pattern
    requires lineStart == 0 || w[lineStart - 1] == NEWLINE
    requires IsSearched(data[..|w|], w, lineStart)
    requires NoNewline(w[lineStart..lineEnd]) && (lineEnd < |w| ==> w[lineEnd] == NEWLINE)
    modifies data
    ensures hits == Select([w[lineStart..lineEnd]], pattern) && console == Render(fname, hits)
    ensures IsSearched(data[..|w|], w, if lineEnd < |w| then lineEnd + 1 else |w|)
    ensures data[|w|] == if lineEnd == |w| then NUL else old(data[|w|])
  {
    hide Select, Render, IsSearched, NoNewline;
    ghost var all, before := data[..], data[..|w|];
    ArraySlice(data, lineStart, lineEnd);
    ArraySlice(data, 0, |w|);
    TakeSlice(all, |w|, lineStart, lineEnd);
    LineOf(before, w, lineStart, lineEnd);
    if lineEnd < |w| {
      NextIsSearched(w, lineStart, lineEnd, before);
    } else {
      assert w[lineStart..lineEnd] == w[lineStart..];
      AllIsSearched(w, lineStart, before);
    }
    console, hits := FinishLine(data, lineStart, lineEnd, pattern, fname);
    FrontAfter(all, data[..], |w|, lineEnd);
    ArraySlice(data, 0, |w|);
  }

  lemma {:induction false} FrontAfter(before: seq<byte>, after: seq<byte>, n: nat, k: nat)
    requires k <= n < |before| == |after| && after[k] == NUL
    requires forall i :: 0 <= i < |before| && i != k ==> after[i] == before[i]
    ensures after[..n] == if k < n then before[..n][k := NUL] else before[..n]
  {
  }

  /** A pass over w that has reached lineStart. */
  ghost predicate InPass(front: seq<byte>, w: seq<byte>, lineStart: nat, records: seq<seq<byte>>, pattern: seq<byte>)
  {
    && IsSearched(front, w, lineStart) && lineStart <= |w| && (lineStart < |w| || w == [])
    && (lineStart == 0 || w[lineStart - 1] == NEWLINE)
    && records == Select(Pieces(w[..lineStart]), pattern)
  }

  /** A pass over w that has ended. */
  ghost predicate IsPassed(front: seq<byte>, behind: byte, last: nat, w: seq<byte>, stray: bool,
                           records: seq<seq<byte>>, pattern: seq<byte>)
  {
    && last <= |front| && front[..last] == Kept(w, stray) && NoNewline(front)
    && (w != [] ==> (behind == NEWLINE <==> Stays(w, stray)))
    && records == Select(Searched(w, stray), pattern)
  }

  /** One iteration of a pass: the next line is searched, or carried to the front. */
  method SearchOrCarry(data: array<byte>, lineStart: nat, full: nat, cnt: nat, pattern: seq<byte>, fname: seq<byte>,
                       ghost w: seq<byte>, ghost stray: bool, ghost records: seq<seq<byte>>)
    returns (next: nat, done: bool, last: nat, console: seq<byte>, ghost hits: seq<seq<byte>>)
    requires full == |w| <= BUFSIZE < data.Length && NUL !in pattern && (cnt == 0 ==> NoNewline(w))
    requires InPass(data[..full], w, lineStart, records, pattern) && (data[full] == NEWLINE <==> stray)
    modifies data
    ensures console == Render(fname, hits)
    ensures done ==> IsPassed(data[..full], data[full], last, w, stray, records + hits, pattern)
    ensures !done ==> && lineStart < next < full && InPass(data[..full], w, next, records + hits, pattern)
                      && (data[full] == NEWLINE <==> stray)
  {
    hide Pieces, Select, Kept, Searched, Stays, Render, IsSearched, NoNewline;
    var lineEnd := ScanLine(data, lineStart, full);
    ghost var front := data[..full];
    ArraySlice(data, lineStart, lineEnd);
    ArraySlice(data, 0, full);
    TakeSlice(data[..], full, lineStart, lineEnd);
    LineOf(front, w, lineStart, lineEnd);
    next, last, done := lineEnd + 1, full, true;
    if data[lineEnd] != NEWLINE && cnt != 0 && lineStart != 0 {
      last := CarryLine(data, lineStart, full, w);
      console, hits := [], [];
      NothingRendered(fname);
      assert records + [] == records && data[..full][..last] == data[..last];
      return;
    }
    console, hits := SearchNextLine(data, lineStart, lineEnd, pattern, fname, w);
    if lineEnd < full {
      NextFound(w, lineStart, lineEnd, pattern);
      if next < full {
        done := false;
        return;
      }
      FinishedPass(w, stray, pattern);
      assert w[..full] == w;
    } else {
      UnfinishedPass(w, stray, lineStart, cnt == 0, pattern);
    }
    ClearedNow(w, data[..full]);
    last := 0;
  }

  /** One pass over the buffer: searches every complete line and carries the rest to the front. */
  method SearchBuffer(data: array<byte>, full: nat, cnt: nat, pattern: seq<byte>, fname: seq<byte>)
    returns (last: nat, console: seq<byte>, ghost records: seq<seq<byte>>)
    requires data.Length == BUFSIZE + 1 && full <= BUFSIZE && NUL !in pattern
    requires if cnt == 0 then NoNewline(data[..full]) else full > 0
    modifies data
    ensures var w, stray := old(data[..full]), old(data[full]) == NEWLINE;
            IsPassed(data[..full], data[full], last, w, stray, records, pattern) && console == Render(fname, records)
  {
    hide InPass, IsPassed, Render, NoNewline;
    ghost var w, stray := data[..full], data[full] == NEWLINE;
    var lineStart, done := 0, false;
    console, records, last := [], [], full;
    NothingRendered(fname);
    PassStarts(w, pattern);
    while !done
      invariant !done ==> InPass(data[..full], w, lineStart, records, pattern) && (data[full] == NEWLINE <==> stray)
      invariant done ==> IsPassed(data[..full], data[full], last, w, stray, records, pattern)
      invariant console == Render(fname, records)
      decreases !done, full - lineStart
    {
      var printed;
      ghost var hits;
      lineStart, done, last, printed, hits :=
        SearchOrCarry(data, lineStart, full, cnt, pattern, fname, w, stray, records);
      RenderConcat(fname, records, hits);
      console, records := console + printed, records + hits;
    }
  }

  // ------------------------------------------------------------- what stands on the terminal

  /** The terminal shows one line for each record, with the name and a colon before it, and stands at
      the start of the next line. */
  lemma {:induction false} RenderedLines(fname: seq<byte>, records: seq<seq<byte>>)
    requires NoNewline(fname) && AllNoNewline(records)
    ensures var lines := Lines(Render(fname, records));
            && |lines| == |records| + 1 && lines[|records|] == []
            && forall i :: 0 <= i < |records| ==> lines[i] == fname + [58] + records[i]
  {
    if records == [] {
      LineEndIs([], 0);
    } else {
      var first, rest := fname + [58] + records[0], records[1..];
      assert NoNewline(records[0]);
      RenderedLines(fname, rest);
      assert Render(fname, records) == first + [10] + Render(fname, rest);
      LinesMore(first, Render(fname, rest));
    }
  }

  lemma {:induction false} PiecesHaveNoNewline(text: seq<byte>)
    ensures AllNoNewline(Pieces(text))
    decreases |text|
  {
    if text != [] {
      var k := LineEnd(text);
      FirstPiece(text);
      hide Pieces;
      if k >= BUFSIZE {
        assert forall i :: 0 <= i < BUFSIZE ==> text[..BUFSIZE][i] == text[i];
        PiecesHaveNoNewline(text[BUFSIZE..]);
      } else if k < |text| {
        PiecesHaveNoNewline(text[k + 1..]);
      }
    }
  }

  lemma {:induction false} SeenHasNoNewline(text: seq<byte>, stray: bool)
    ensures AllNoNewline(Seen(text, stray))
    decreases |text|
  {
    if text == [] {
      SeesNothing(stray);
    } else {
      hide Seen, Pieces;
      var w := FirstWindow(text);
      var next := Kept(w, stray) + text[|w|..];
      WindowShape(text, w);
      FirstSearched(text, stray);
      PiecesHaveNoNewline(w[..BehindLastNewline(w)]);
      UnfinishedLine(w);
      SeenHasNoNewline(next, Stays(w, stray) && |next| >= BUFSIZE);
    }
  }

  lemma {:induction false} SelectedHaveNoNewline(lines: seq<seq<byte>>, pattern: seq<byte>)
    requires AllNoNewline(lines)
    ensures AllNoNewline(Select(lines, pattern))
  {
    hide Contains;
    if lines != [] {
      SelectedHaveNoNewline(lines[1..], pattern);
      assert NoNewline(lines[0]);
      assert forall i :: 0 <= i < |CString(lines[0])| ==> CString(lines[0])[i] == lines[0][i];
    }
  }

  /** So it is for a search: one line on the terminal for each record that is printed. */
  lemma {:induction false} TerminalShowsRecords(fname: seq<byte>, text: seq<byte>, slack: seq<byte>, stale: Buffer,
                                                pattern: seq<byte>)
    requires NoNewline(fname)
    ensures var records := Printed(text, slack, stale, pattern);
            var lines := Lines(Render(fname, records));
            && AllNoNewline(records) && |lines| == |records| + 1 && lines[|records|] == []
            && forall i :: 0 <= i < |records| ==> lines[i] == fname + [58] + records[i]
  {
    hide Seen, Select, Render, Lines, ReadOf;
    var read := ReadOf(text, slack, stale);
    SeenHasNoNewline(read, IsStray(stale, read));
    SelectedHaveNoNewline(Seen(read, IsStray(stale, read)), pattern);
    RenderedLines(fname, Printed(text, slack, stale, pattern));
  }

  // ------------------------------------------------------------- reading the file

  /** The bytes of an open file that were not read yet, and what follows them. */
  ghost function Own(file: Descriptor): seq<byte>
    requires file.Valid()
    reads file
  {
    if file.pos >= file.length then [] else file.stream[file.pos..file.length]
  }

  ghost function Slack(file: Descriptor): seq<byte>
    requires file.length <= |file.stream|
  {
    file.stream[file.length..]
  }

  /** What will still be read behind the bytes in the buffer. */
  ghost function Rest(carried: seq<byte>, own: seq<byte>, slack: seq<byte>, stray: bool): seq<byte>
  {
    if own == [] then [] else if EndsWithWindow(carried + own, stray) then own else own + slack
  }

  /** One read takes its bytes from the front of what will still be read. */
  lemma {:induction false} ReadStep(carried: seq<byte>, own: seq<byte>, slack: seq<byte>, stray: bool, cnt: nat)
    requires |carried| < BUFSIZE && own != []
    requires cnt == if BUFSIZE - |carried| < |own| + |slack| then BUFSIZE - |carried| else |own| + |slack|
    requires |slack| <= 1
    ensures var bytes, left := (own + slack)[..cnt], if cnt <= |own| then own[cnt..] else [];
            && carried + bytes + Rest(carried + bytes, left, slack, stray) == carried + Rest(carried, own, slack, stray)
            && (|carried| + cnt == BUFSIZE || left == [])
  {
    var bytes := (own + slack)[..cnt];
    if cnt < |own| {
      var left := own[cnt..];
      assert own == bytes + left;
      assert (carried + bytes) + left == carried + own;
      assert bytes + (left + slack) == own + slack;
    } else if cnt == |own| {
      assert bytes == own;
    } else {
      assert bytes == own + slack;
    }
  }

  /** Where reads end depends on the newlines only. */
  lemma {:induction false} SameEnd(a: seq<byte>, b: seq<byte>, rest: seq<byte>, stray: bool)
    requires |a| == |b| < BUFSIZE && NoNewline(a) && NoNewline(b)
    ensures EndsWithWindow(a + rest, stray) == EndsWithWindow(b + rest, stray)
  {
    EndsNext(a + rest, stray);
    EndsNext(b + rest, stray);
    hide EndsWithWindow, NoNewline, NextStart, Stays;
    assert |a + rest| == |b + rest|;
    if |a + rest| > BUFSIZE {
      var front := rest[..BUFSIZE - |a|];
      CutSum(a, rest, BUFSIZE);
      CutSum(b, rest, BUFSIZE);
      NextBehind(a, front, stray);
      NextBehind(b, front, stray);
      var next := NextStart(a + front, stray);
      CutSum(a, rest, next);
      CutSum(b, rest, next);
    }
  }

  lemma {:induction false} EndsNext(text: seq<byte>, stray: bool)
    ensures |text| <= BUFSIZE ==> (EndsWithWindow(text, stray) <==> text == [] || |text| == BUFSIZE)
    ensures |text| > BUFSIZE ==>
              var w := text[..BUFSIZE];
              EndsWithWindow(text, stray) <==> EndsWithWindow(text[NextStart(w, stray)..], Stays(w, stray))
  {
  }

  /** Where the next window begins does not depend on the bytes of the line that the window begins with. */
  lemma {:induction false} NextBehind(a: seq<byte>, b: seq<byte>, stray: bool)
    requires NoNewline(a)
    ensures var k := BehindLastNewline(b);
            && |a| <= NextStart(a + b, stray) == (if k == 0 || stray then |a| + |b| else |a| + k)
            && (Stays(a + b, stray) <==> stray && (if k == 0 then 0 else |a| + k) == |a| + |b|)
  {
    LastNewlineBehind(a, b);
  }

  /** The last newline of a sum, when its first part has none. */
  lemma {:induction false} LastNewlineBehind(a: seq<byte>, b: seq<byte>)
    requires NoNewline(a)
    ensures var k := BehindLastNewline(b);
            BehindLastNewline(a + b) == if k == 0 then 0 else |a| + k
  {
    var k := BehindLastNewline(b);
    var j := if k == 0 then 0 else |a| + k;
    forall i | 0 <= i < |a + b| - j
      ensures (a + b)[j..][i] != NEWLINE
    {
      assert (a + b)[j..][i] == (a + b)[j + i] == if j + i < |a| then a[j + i] else b[j + i - |a|];
    }
    BehindLastNewlineIs(a + b, j);
  }

  /** After a pass over a full buffer, the bytes at its front stand for the whole window. */
  lemma {:induction false} PassStep(window: seq<byte>, own: seq<byte>, slack: seq<byte>, stray: bool)
    requires |window| == BUFSIZE
    ensures Rest(Kept(window, stray), own, slack, Stays(window, stray)) == Rest(window, own, slack, stray)
  {
    if own != [] {
      var text, next := window + own, NextStart(window, stray);
      assert text[..BUFSIZE] == window;
      assert text[next..] == window[next..] + own;
      assert forall i :: 0 <= i < |window| - next ==> window[next..][i] == window[next + i];
      SameEnd(Kept(window, stray), window[next..], own, Stays(window, stray));
    }
  }

  /** Everything that is still to be searched of an open file. */
  ghost function Unsearched(file: Descriptor, data: array<byte>, last: nat): seq<byte>
    requires file.Valid() && last <= data.Length == BUFSIZE + 1
    reads file, data
  {
    data[..last] + Rest(data[..last], Own(file), Slack(file), data[BUFSIZE] == NEWLINE)
  }

  /** What will be found in it. */
  ghost function ToFind(text: seq<byte>, data: array<byte>, pattern: seq<byte>): seq<seq<byte>>
    requires data.Length == BUFSIZE + 1
    reads data
  {
    Select(Seen(text, IsStray(data[..], text)), pattern)
  }

  /** Reads the next part of the file behind the carried bytes. */
  method FillBuffer(file: Descriptor, data: array<byte>, last: nat) returns (cnt: int)
    requires data.Length == BUFSIZE + 1 && last < BUFSIZE && file.Valid()
    modifies file, data
    ensures file.Valid()
    ensures if file.readable then cnt >= 0 else cnt == -1
    ensures cnt >= 0 ==> && last + cnt <= BUFSIZE && file.pos == old(file.pos) + cnt
                         && Unsearched(file, data, last + cnt) == old(Unsearched(file, data, last))
                         && (last + cnt == BUFSIZE || Own(file) == []) && (cnt == 0 ==> Own(file) == [])
                         && data[..last] == old(data[..last])
                         && forall i :: last + cnt <= i < data.Length ==> data[i] == old(data[i])
  {
    hide EndsWithWindow;
    ghost var carried, own, stray := data[..last], Own(file), data[BUFSIZE] == NEWLINE;
    cnt := file.Read(data, last, BUFSIZE - last);
    if cnt >= 0 && own != [] {
      ReadStep(carried, own, Slack(file), stray, cnt);
      assert data[..last] == carried;
      assert data[last..last + cnt] == (own + Slack(file))[..cnt];
      assert data[..last + cnt] == carried + (own + Slack(file))[..cnt];
      assert cnt <= |own| ==> Own(file) == own[cnt..];
    }
  }

  /** The window at the front of what is still to be searched. */
  lemma {:induction false} WindowOf(w: seq<byte>, rest: seq<byte>, stale: Buffer)
    requires |w| <= BUFSIZE && (|w| < BUFSIZE ==> rest == [])
    ensures FirstWindow(w + rest) == w && (w + rest)[|w|..] == rest
    ensures IsStray(stale, w + rest) == (stale[|w|] == NEWLINE)
  {
    assert rest == [] ==> w + rest == w;
  }

  /** After a pass, no newline can end the next window by chance, unless it is a full one behind which
      a newline has stayed. */
  lemma {:induction false} NextIsStray(w: seq<byte>, stray: bool, rest: seq<byte>, now: Buffer)
    requires w != [] && |w| <= BUFSIZE && (|w| < BUFSIZE ==> rest == [])
    requires NoNewline(now[..|w|]) && (now[|w|] == NEWLINE <==> Stays(w, stray))
    ensures var next := Kept(w, stray) + rest;
            IsStray(now, next) <==> Stays(w, stray) && |next| >= BUFSIZE
  {
    var next := Kept(w, stray) + rest;
    if |next| < BUFSIZE {
      assert |next| < |w|;
      assert now[|next|] == now[..|w|][|next|];
    }
  }

  /** A window and what follows it, after a pass. */
  lemma {:induction false} PassFinds(w: seq<byte>, own: seq<byte>, slack: seq<byte>, stale: Buffer, now: Buffer,
                                     last: nat, records: seq<seq<byte>>, pattern: seq<byte>)
    requires |w| <= BUFSIZE && (|w| < BUFSIZE ==> own == []) && stale[..|w|] == w
    requires IsPassed(now[..|w|], now[|w|], last, w, stale[|w|] == NEWLINE, records, pattern)
    ensures var stray, stray' := stale[BUFSIZE] == NEWLINE, now[BUFSIZE] == NEWLINE;
            var text := w + Rest(w, own, slack, stray);
            && last <= |w|
            && var next := now[..last] + Rest(now[..last], own, slack, stray');
               Select(Seen(text, IsStray(stale, text)), pattern)
               == records + Select(Seen(next, IsStray(now, next)), pattern)
  {
    hide Seen, Select, EndsWithWindow, Kept, Searched, Stays, IsStray, FirstWindow, NoNewline;
    var s := stale[|w|] == NEWLINE;
    var rest := Rest(w, own, slack, stale[BUFSIZE] == NEWLINE);
    WindowOf(w, rest, stale);
    assert now[..|w|][..last] == now[..last];
    if |w| == BUFSIZE {
      PassStep(w, own, slack, s);
    }
    var next := Kept(w, s) + rest;
    if w == [] {
      NothingIsFound(s, pattern);
    } else {
      NextIsStray(w, s, rest, now);
      FirstSearched(w + rest, s);
      SelectConcat(Searched(w, s), Seen(next, IsStray(now, next)), pattern);
    }
  }

  lemma {:induction false} NothingIsFound(stray: bool, pattern: seq<byte>)
    ensures Kept([], stray) == [] && Searched([], stray) == [] && Select([], pattern) == []
    ensures forall s :: Seen([], s) == []
  {
    assert |Kept([], stray)| == 0;
  }

  /** What a pass keeps is shorter than its window and has no newline. */
  lemma {:induction false} KeptIsShort(front: seq<byte>, behind: byte, last: nat, w: seq<byte>, stray: bool,
                                       records: seq<seq<byte>>, pattern: seq<byte>)
    requires IsPassed(front, behind, last, w, stray, records, pattern) && |front| == |w|
    ensures last <= |w| && NoNewline(front[..last]) && (w == [] || last < |w|)
    ensures NoNewline(w) ==> last == 0
  {
    hide Searched;
    assert forall i :: 0 <= i < last ==> front[..last][i] == front[i];
    assert NoNewline(w) ==> BehindLastNewline(w) == 0;
    assert |Kept(w, stray)| == |w| - NextStart(w, stray);
  }

  /** One pass over what was read. */
  method SearchRead(file: Descriptor, data: array<byte>, full: nat, cnt: nat, pattern: seq<byte>, fname: seq<byte>)
    returns (last: nat, console: seq<byte>, ghost hits: seq<seq<byte>>)
    requires data.Length == BUFSIZE + 1 && full <= BUFSIZE && NUL !in pattern && file.Valid()
    requires if cnt == 0 then NoNewline(data[..full]) && full < BUFSIZE else full > 0
    requires full == BUFSIZE || Own(file) == []
    modifies data
    ensures last < BUFSIZE && NoNewline(data[..last]) && console == Render(fname, hits)
    ensures old(ToFind(Unsearched(file, data, full), data, pattern))
            == hits + ToFind(Unsearched(file, data, last), data, pattern)
    ensures cnt == 0 ==> Unsearched(file, data, last) == []
  {
    hide IsPassed, Seen, Select, EndsWithWindow, IsStray, NoNewline, Render;
    ghost var stale, w := data[..], data[..full];
    ArraySlice(data, 0, full);
    last, console, hits := SearchBuffer(data, full, cnt, pattern, fname);
    ArraySlice(data, 0, full);
    KeptIsShort(data[..full], data[full], last, w, stale[full] == NEWLINE, hits, pattern);
    PassFinds(w, Own(file), Slack(file), stale, data[..], last, hits, pattern);
    ArraySlice(data, 0, last);
    TakeSlice(data[..], full, 0, last);
    assert data[..full][..last] == data[..last];
  }

  /** Reading leaves to be found what was to be found. */
  lemma {:induction false} ReadFinds(text: seq<byte>, full: nat, before: Buffer, after: Buffer, rest: seq<byte>)
    requires full <= BUFSIZE && text == after[..full] + rest && (full < BUFSIZE ==> rest == [])
    requires before[full] == after[full]
    ensures IsStray(before, text) == IsStray(after, text)
  {
    WindowOf(after[..full], rest, before);
    WindowOf(after[..full], rest, after);
  }

  lemma {:induction false} FoundSoFar(records: seq<seq<byte>>, hits: seq<seq<byte>>, before: seq<seq<byte>>,
                                      after: seq<seq<byte>>, goal: seq<seq<byte>>)
    requires records + before == goal && before == hits + after
    ensures (records + hits) + after == goal
  {
  }

  /** The read loop: fill the buffer, search it, carry the rest. */
  method SearchFile(pattern: seq<byte>, fname: seq<byte>, file: Descriptor, data: array<byte>)
    returns (ret: int, console: seq<byte>, ghost records: seq<seq<byte>>)
    requires data.Length == BUFSIZE + 1 && NUL !in pattern && file.Valid()
    modifies data, file
    ensures ret == if file.readable then 0 else -1
    ensures ret == 0 ==> records == old(ToFind(Unsearched(file, data, 0), data, pattern))
                         && console == Render(fname, records)
  {
    hide Seen, Select, EndsWithWindow, IsStray, Render;
    ghost var goal := ToFind(Unsearched(file, data, 0), data, pattern);
    var last: nat := 0;
    console, records := [], [];
    NothingRendered(fname);
    while true
      invariant file.Valid() && last < BUFSIZE && NoNewline(data[..last])
      invariant records + ToFind(Unsearched(file, data, last), data, pattern) == goal
      invariant console == Render(fname, records)
      decreases |file.stream| - file.pos
    {
      ghost var stale, text := data[..], Unsearched(file, data, last);
      var cnt := FillBuffer(file, data, last);
      if cnt == -1 {
        return -1, console, records;
      }
      ghost var rest := Rest(data[..last + cnt], Own(file), Slack(file), data[BUFSIZE] == NEWLINE);
      ReadFinds(text, last + cnt, stale, data[..], rest);
      ghost var before := ToFind(text, data, pattern);
      var printed;
      ghost var hits;
      last, printed, hits := SearchRead(file, data, last + cnt, cnt, pattern, fname);
      RenderConcat(fname, records, hits);
      FoundSoFar(records, hits, before, ToFind(Unsearched(file, data, last), data, pattern), goal);
      console, records := console + printed, records + hits;
      if cnt == 0 {
        NothingIsFound(false, pattern);
        return 0, console, records;
      }
    }
  }

  lemma {:induction false} StartOfFile(file: Descriptor, stale: Buffer)
    requires file.Valid() && file.pos == 0
    ensures var text := file.stream[..file.length];
            [] + Rest([], Own(file), Slack(file), stale[BUFSIZE] == NEWLINE) == ReadOf(text, Slack(file), stale)
  {
    var text := file.stream[..file.length];
    assert [] + Own(file) == Own(file) == text;
  }

  /** Searches one file, whatever its bytes are and whatever the buffer holds.  The result is -1 when
      it cannot be opened or read. */
  method DoOneFile(pattern: seq<byte>, fname: seq<byte>, file: Descriptor?, stale: Buffer)
    returns (ret: int, console: seq<byte>)
    requires NUL !in pattern && (file != null ==> file.Valid() && file.pos == 0)
    modifies if file == null then {} else {file}
    ensures ret == if file != null && file.readable then 0 else -1
    ensures ret == 0 ==>
              var text, slack := file.stream[..file.length], file.stream[file.length..];
              console == Render(fname, Printed(text, slack, stale, pattern))
  {
    hide Seen, Select, EndsWithWindow, IsStray, Render;
    var data := new byte[BUFSIZE + 1](i requires 0 <= i < BUFSIZE + 1 => stale[i]);
    if file == null {
      return -1, [];
    }
    assert data[..] == stale && data[..0] == [];
    StartOfFile(file, stale);
    ghost var records;
    ret, console, records := SearchFile(pattern, fname, file, data);
  }
}
