/** How execute takes a command line apart (chapOS/student-distrib/system_call.c). */
module CommandLine {
  import opened Bytes

  const MAX_NAME := 10
  const MAX_ARG := 100

  // ------------------------------------------------------------- tokens

  /** A text behind its leading spaces. */
  function SkipSpaces(s: seq<byte>): (r: seq<byte>)
    ensures |r| <= |s|
  {
    if s != [] && s[0] == SPACE then SkipSpaces(s[1..]) else s
  }

  /** A text up to its first space. */
  function Token(s: seq<byte>): (r: seq<byte>)
    ensures r <= s
  {
    if s == [] || s[0] == SPACE then [] else [s[0]] + Token(s[1..])
  }

  function FirstToken(cmd: seq<byte>): seq<byte>
  {
    Token(SkipSpaces(cmd))
  }

  function AfterFirst(cmd: seq<byte>): seq<byte>
  {
    SkipSpaces(cmd)[|FirstToken(cmd)|..]
  }

  function SecondToken(cmd: seq<byte>): seq<byte>
  {
    FirstToken(AfterFirst(cmd))
  }

  function Spaces(n: nat): (r: seq<byte>)
    ensures |r| == n
  {
    seq(n, _ => SPACE)
  }

  lemma {:induction false} SkipLeading(n: nat, s: seq<byte>)
    requires s == [] || s[0] != SPACE
    ensures SkipSpaces(Spaces(n) + s) == s
  {
    if n > 0 {
      assert (Spaces(n) + s)[1..] == Spaces(n - 1) + s;
      SkipLeading(n - 1, s);
    } else {
      assert Spaces(n) + s == s;
    }
  }

  lemma {:induction false} TokenOf(word: seq<byte>, rest: seq<byte>)
    requires SPACE !in word && (rest == [] || rest[0] == SPACE)
    ensures Token(word + rest) == word
  {
    if word != [] {
      assert (word + rest)[1..] == word[1..] + rest;
      TokenOf(word[1..], rest);
    } else {
      assert word + rest == rest;
    }
  }

  /** The tokens of a command line are its first two words, however they are spaced. */
  lemma {:induction false} TokensAreWords(a: nat, name: seq<byte>, b: nat, arg: seq<byte>, rest: seq<byte>)
    requires name != [] && SPACE !in name && arg != [] && SPACE !in arg
    requires b > 0 && (rest == [] || rest[0] == SPACE)
    ensures var cmd := Spaces(a) + name + Spaces(b) + arg + rest;
            FirstToken(cmd) == name && SecondToken(cmd) == arg
  {
    var cmd, tail := Spaces(a) + name + Spaces(b) + arg + rest, Spaces(b) + (arg + rest);
    assert cmd == Spaces(a) + (name + tail);
    SkipLeading(a, name + tail);
    TokenOf(name, tail);
    assert (name + tail)[|name|..] == tail;
    SkipLeading(b, arg + rest);
    TokenOf(arg, rest);
  }

  /** A command of one word has no argument, and an empty one no word. */
  lemma {:induction false} OneWord(a: nat, name: seq<byte>, b: nat)
    requires SPACE !in name
    ensures var cmd := Spaces(a) + name + Spaces(b);
            FirstToken(cmd) == name && SecondToken(cmd) == []
  {
    var cmd := Spaces(a) + name + Spaces(b);
    if name == [] {
      assert cmd == Spaces(a + b) + [];
      SkipLeading(a + b, []);
    } else {
      assert cmd == Spaces(a) + (name + Spaces(b));
      SkipLeading(a, name + Spaces(b));
      TokenOf(name, Spaces(b));
      assert (name + Spaces(b))[|name|..] == Spaces(b) == Spaces(b) + [];
      SkipLeading(b, []);
    }
  }

  /** Words fit up to 9 and 99 characters. */
  lemma {:induction false} WordsThatFit(a: nat, name: seq<byte>, b: nat, arg: seq<byte>, rest: seq<byte>)
    requires name != [] && 32 !in name && arg != [] && 32 !in arg
    requires b > 0 && (rest == [] || rest[0] == 32)
    ensures Fits(Spaces(a) + name + Spaces(b) + arg + rest) <==> |name| <= 9 && |arg| <= 99
  {
    TokensAreWords(a, name, b, arg, rest);
  }

  // ------------------------------------------------------------- the parser

  /** Where the parser is: before or in the name, before or in the argument. */
  datatype Phase = BeforeName | InName | BeforeArg | InArg

  /** What was collected so far and what is left make up the tokens of the command. */
  ghost predicate Finds(cmd: seq<byte>, phase: Phase, name: seq<byte>, arg: seq<byte>, rest: seq<byte>)
  {
    match phase
    case BeforeName =>
      name == [] && arg == [] && FirstToken(cmd) == FirstToken(rest) && SecondToken(cmd) == SecondToken(rest)
    case InName =>
      arg == [] && FirstToken(cmd) == name + Token(rest) && SecondToken(cmd) == FirstToken(rest[|Token(rest)|..])
    case BeforeArg =>
      arg == [] && FirstToken(cmd) == name && SecondToken(cmd) == FirstToken(rest)
    case InArg =>
      FirstToken(cmd) == name && SecondToken(cmd) == arg + Token(rest)
  }

  lemma {:induction false} TokenStep(s: seq<byte>)
    requires s != []
    ensures s[0] == SPACE ==> && Token(s) == [] && FirstToken(s) == FirstToken(s[1..])
                              && SecondToken(s) == SecondToken(s[1..])
    ensures s[0] != SPACE ==> && Token(s) == [s[0]] + Token(s[1..]) && s[|Token(s)|..] == s[1..][|Token(s[1..])|..]
                              && FirstToken(s) == Token(s) && SecondToken(s) == FirstToken(s[|Token(s)|..])
  {
    assert s[0] == SPACE ==> SkipSpaces(s) == SkipSpaces(s[1..]);
    assert s[0] != SPACE ==> SkipSpaces(s) == s;
  }

  /** The steps of the parser: a space or a character is consumed, or only the phase changes. */
  lemma {:induction false} StepBeforeName(cmd: seq<byte>, name: seq<byte>, arg: seq<byte>, rest: seq<byte>)
    requires Finds(cmd, BeforeName, name, arg, rest) && rest != []
    ensures if rest[0] == SPACE then Finds(cmd, BeforeName, name, arg, rest[1..])
            else Finds(cmd, InName, name, arg, rest) && name == []
  {
    TokenStep(rest);
    assert [] + Token(rest) == Token(rest);
  }

  lemma {:induction false} StepInName(cmd: seq<byte>, name: seq<byte>, arg: seq<byte>, rest: seq<byte>)
    requires Finds(cmd, InName, name, arg, rest) && rest != []
    ensures if rest[0] == SPACE then Finds(cmd, BeforeArg, name, arg, rest)
            else Finds(cmd, InName, name + [rest[0]], arg, rest[1..]) && |name| + 1 <= |FirstToken(cmd)|
  {
    TokenStep(rest);
    AppendAssoc(name, [rest[0]], Token(rest[1..]));
    hide FirstToken, SecondToken, Token;
    assert rest[0] == SPACE ==> name + [] == name && rest[0..] == rest;
  }

  lemma {:induction false} StepBeforeArg(cmd: seq<byte>, name: seq<byte>, arg: seq<byte>, rest: seq<byte>)
    requires Finds(cmd, BeforeArg, name, arg, rest) && rest != []
    ensures if rest[0] == SPACE then Finds(cmd, BeforeArg, name, arg, rest[1..])
            else Finds(cmd, InArg, name, arg, rest) && arg == []
  {
    TokenStep(rest);
    assert [] + Token(rest) == Token(rest);
  }

  lemma {:induction false} StepInArg(cmd: seq<byte>, name: seq<byte>, arg: seq<byte>, rest: seq<byte>)
    requires Finds(cmd, InArg, name, arg, rest) && rest != []
    ensures if rest[0] == SPACE then FirstToken(cmd) == name && SecondToken(cmd) == arg
            else Finds(cmd, InArg, name, arg + [rest[0]], rest[1..]) && |arg| + 1 <= |SecondToken(cmd)|
  {
    TokenStep(rest);
    AppendAssoc(arg, [rest[0]], Token(rest[1..]));
    hide FirstToken, SecondToken, Token;
    assert rest[0] == SPACE ==> arg + [] == arg;
  }

  lemma {:induction false} FindsEnd(cmd: seq<byte>, phase: Phase, name: seq<byte>, arg: seq<byte>, rest: seq<byte>)
    requires rest == [] && Finds(cmd, phase, name, arg, rest)
    ensures FirstToken(cmd) == name && SecondToken(cmd) == arg
  {
    assert name + [] == name && arg + [] == arg;
  }

  /** A buffer that holds a C string and NULs behind it. */
  ghost predicate Holds(buf: seq<byte>, s: seq<byte>)
  {
    NUL !in s && |s| < |buf| && buf[..|s|] == s && forall i :: |s| <= i < |buf| ==> buf[i] == NUL
  }

  lemma {:induction false} HeldString(buf: seq<byte>, s: seq<byte>)
    requires Holds(buf, s)
    ensures CString(buf) == s
  {
    assert forall i :: 0 <= i < |s| ==> buf[i] == s[i];
    CStringIs(buf, |s|);
  }

  /** Stores the next byte of a token, or terminates it at a space. */
  method StoreOrEnd(buf: array<byte>, k: nat, c: byte, ghost s: seq<byte>) returns (ended: bool)
    requires Holds(buf[..], s) && k == |s| && c != NUL && (c != SPACE ==> k + 1 < buf.Length)
    modifies buf
    ensures ended <==> c == SPACE
    ensures Holds(buf[..], if ended then s else s + [c])
  {
    ghost var before := buf[..];
    ended := c == SPACE;
    if ended {
      buf[k] := NUL;
      assert buf[..] == before;
    } else {
      buf[k] := c;
      assert buf[..k] == before[..k];
      assert buf[..][..k + 1] == s + [c];
    }
  }

  /** The parser's positions; -1 stands for not found yet. */
  datatype Marks = Marks(nameStart: int, nameEnd: int, argStart: int, argEnd: int)

  function PhaseOf(m: Marks): Phase
  {
    if m.nameStart == -1 then BeforeName else if m.nameEnd == -1 then InName
    else if m.argStart == -1 then BeforeArg else InArg
  }

  ghost predicate AreMarks(m: Marks)
  {
    m.argEnd == -1 && (m.nameStart == -1 ==> m.nameEnd == -1) && (m.nameEnd == -1 ==> m.argStart == -1)
  }

  /** The loop invariant: the buffers hold what was collected, and it was collected up to i. */
  ghost predicate IsParsing(cmd: seq<byte>, i: int, m: Marks, nameBuf: seq<byte>, argBuf: seq<byte>,
                            w: seq<byte>, a: seq<byte>)
  {
    && 0 <= i <= |cmd| && AreMarks(m)
    && Finds(cmd, PhaseOf(m), w, a, cmd[i..]) && Holds(nameBuf, w) && Holds(argBuf, a)
    && (PhaseOf(m) == InName ==> m.nameStart == i - |w| >= 0)
    && (PhaseOf(m) == InArg ==> m.argStart == i - |a| >= 0)
  }

  /** How many phases are still to come. */
  function PhasesLeft(m: Marks): nat
  {
    match PhaseOf(m)
    case BeforeName => 3
    case InName => 2
    case BeforeArg => 1
    case InArg => 0
  }

  /** A step of the loop: a space or a character is consumed, or the phase advances, or the
      argument ends. */
  ghost predicate Advanced(cmd: seq<byte>, pos: int, marks: Marks, i: int, m: Marks,
                           nameBuf: seq<byte>, argBuf: seq<byte>, w: seq<byte>, a: seq<byte>)
  {
    if m.argEnd == -1 then
      && IsParsing(cmd, i, m, nameBuf, argBuf, w, a)
      && ((i == pos + 1 && m == marks) || (i == pos && PhasesLeft(m) < PhasesLeft(marks)))
    else Holds(nameBuf, FirstToken(cmd)) && Holds(argBuf, SecondToken(cmd))
  }

  /** The first two words fit the buffers of execute together with their terminators. */
  predicate Fits(cmd: seq<byte>)
  {
    |FirstToken(cmd)| < MAX_NAME && |SecondToken(cmd)| < MAX_ARG
  }

  /** One character in the name; it does not fit when there is no room for it and the terminator. */
  method NameChar(cmd: seq<byte>, pos: int, marks: Marks, fileNameCommand: array<byte>, ghost argBuf: seq<byte>,
                  ghost w: seq<byte>, ghost a: seq<byte>)
    returns (fits: bool, i: int, m: Marks, ghost w': seq<byte>)
    requires fileNameCommand.Length == MAX_NAME && PhaseOf(marks) == InName
    requires IsParsing(cmd, pos, marks, fileNameCommand[..], argBuf, w, a) && pos < |cmd| && cmd[pos] != NUL
    modifies fileNameCommand
    ensures if fits then Advanced(cmd, pos, marks, i, m, fileNameCommand[..], argBuf, w', a)
            else |FirstToken(cmd)| >= MAX_NAME
  {
    ghost var rest := cmd[pos..];
    assert rest[0] == cmd[pos] && rest[1..] == cmd[pos + 1..];
    assert pos - marks.nameStart == |w|;
    hide Finds, FirstToken, SecondToken, Holds;
    StepInName(cmd, w, a, rest);
    fits, i, m, w' := true, pos, marks, w;
    if cmd[i] != SPACE && i - m.nameStart + 1 >= MAX_NAME {
      fits := false;
      return;
    }
    var ended := StoreOrEnd(fileNameCommand, i - m.nameStart, cmd[i], w);
    if ended {
      m := m.(nameEnd := i);
      assert IsParsing(cmd, i, m, fileNameCommand[..], argBuf, w', a);
      return;
    }
    w', i := w + [cmd[i]], i + 1;
    assert IsParsing(cmd, i, m, fileNameCommand[..], argBuf, w', a);
  }

  /** The body of the parsing loop before and in the name. */
  method NameStep(cmd: seq<byte>, pos: int, marks: Marks, fileNameCommand: array<byte>, ghost argBuf: seq<byte>,
                  ghost w: seq<byte>, ghost a: seq<byte>)
    returns (fits: bool, i: int, m: Marks, ghost w': seq<byte>)
    requires fileNameCommand.Length == MAX_NAME && marks.nameEnd == -1
    requires IsParsing(cmd, pos, marks, fileNameCommand[..], argBuf, w, a) && pos < |cmd| && cmd[pos] != NUL
    modifies fileNameCommand
    ensures if fits then Advanced(cmd, pos, marks, i, m, fileNameCommand[..], argBuf, w', a)
            else |FirstToken(cmd)| >= MAX_NAME
  {
    if marks.nameStart != -1 {
      fits, i, m, w' := NameChar(cmd, pos, marks, fileNameCommand, argBuf, w, a);
      return;
    }
    ghost var rest := cmd[pos..];
    assert rest[0] == cmd[pos] && rest[1..] == cmd[pos + 1..];
    hide Finds, FirstToken, SecondToken, Holds;
    StepBeforeName(cmd, w, a, rest);
    fits, i, m, w' := true, pos, marks, w;
    if cmd[i] == SPACE {
      i := i + 1;
    } else {
      m := m.(nameStart := i);
    }
  }

  /** The body of the parsing loop behind the name. */
  method ArgStep(cmd: seq<byte>, pos: int, marks: Marks, ghost nameBuf: seq<byte>, argCommand: array<byte>,
                 ghost w: seq<byte>, ghost a: seq<byte>)
    returns (fits: bool, i: int, m: Marks, ghost a': seq<byte>)
    requires argCommand.Length == MAX_ARG && marks.nameEnd != -1
    requires IsParsing(cmd, pos, marks, nameBuf, argCommand[..], w, a) && pos < |cmd| && cmd[pos] != NUL
    modifies argCommand
    ensures if fits then Advanced(cmd, pos, marks, i, m, nameBuf, argCommand[..], w, a')
            else |SecondToken(cmd)| >= MAX_ARG
  {
    ghost var rest := cmd[pos..];
    assert rest[0] == cmd[pos] && rest[1..] == cmd[pos + 1..];
    hide Finds, FirstToken, SecondToken, Holds;
    fits, i, m, a' := true, pos, marks, a;
    if m.argStart == -1 {
      StepBeforeArg(cmd, w, a, rest);
      if cmd[i] == SPACE {
        i := i + 1;
      } else {
        m := m.(argStart := i);
      }
      return;
    }
    StepInArg(cmd, w, a, rest);
    if cmd[i] != SPACE && i - m.argStart + 1 >= MAX_ARG {
      fits := false;
      return;
    }
    var ended := StoreOrEnd(argCommand, i - m.argStart, cmd[i], a);
    if ended {
      m := m.(argEnd := i);
      return;
    }
    a', i := a + [cmd[i]], i + 1;
  }

  /** The parsing loop of execute, for every command line: it yields the first two words exactly
      when they fit its buffers.  Some of its steps only change the phase, so it ends because either
      the position or the phase advances. */
  method Parse(cmd: seq<byte>) returns (fits: bool, name: seq<byte>, arg: seq<byte>)
    requires forall k :: 0 <= k < |cmd| ==> cmd[k] != NUL
    ensures fits <==> Fits(cmd)
    ensures fits ==> name == FirstToken(cmd) && arg == SecondToken(cmd)
  {
    var fileNameCommand, argCommand := new byte[MAX_NAME](_ => NUL), new byte[MAX_ARG](_ => NUL);
    var i: int, m := 0, Marks(-1, -1, -1, -1);
    ghost var w: seq<byte>, a: seq<byte> := [], [];
    assert cmd[0..] == cmd && IsParsing(cmd, i, m, fileNameCommand[..], argCommand[..], w, a);
    while i < |cmd| && m.argEnd == -1
      invariant if m.argEnd == -1 then IsParsing(cmd, i, m, fileNameCommand[..], argCommand[..], w, a)
                else Holds(fileNameCommand[..], FirstToken(cmd)) && Holds(argCommand[..], SecondToken(cmd))
      decreases m.argEnd == -1, |cmd| - i, PhasesLeft(m)
    {
      hide FirstToken, SecondToken, Holds, Finds;
      if m.nameEnd == -1 {
        fits, i, m, w := NameStep(cmd, i, m, fileNameCommand, argCommand[..], w, a);
      } else {
        fits, i, m, a := ArgStep(cmd, i, m, fileNameCommand[..], argCommand, w, a);
      }
      if !fits {
        return false, [], [];
      }
    }
    if m.argEnd == -1 {
      FindsEnd(cmd, PhaseOf(m), w, a, cmd[i..]);
    }
    HeldString(fileNameCommand[..], FirstToken(cmd));
    HeldString(argCommand[..], SecondToken(cmd));
    return true, CString(fileNameCommand[..]), CString(argCommand[..]);
  }
}
