/** The keyboard line editor and the three terminals that share one video memory, one cursor and
    one key index (chapOS/student-distrib/keyboard.c). */
module Terminal {
  import opened Bytes
  import opened Screen
  import opened Sizes

  // ------------------------------------------------------------- one terminal

  /** A terminal of its own: its screen, its key buffer and how many keys are pending. */
  datatype Term = Term(screen: Screen, keys: seq<byte>, index: int)

  predicate IsTerm(t: Term)
  {
    OnScreen(t.screen) && |t.keys| == NUM_KEYS && 0 <= t.index <= NUM_KEYS
  }

  datatype Event =
    | Key(c: byte)      // a key that maps to a character
    | Backspace
    | Enter
    | ClearScreen       // Ctrl-L
    | Output(c: byte)   // a program writes a character
    | Struck            // the Enter of another terminal stores its NUL over the first key

  function Handle(t: Term, e: Event): (r: Term)
    requires IsTerm(t)
    ensures IsTerm(r)
  {
    match e
    case Key(c) =>
      if t.index == NUM_KEYS then t else Term(Put(t.screen, c), t.keys[t.index := c], t.index + 1)
    case Backspace =>
      if t.index == 0 then t else Term(Back(t.screen), t.keys[t.index - 1 := NUL], t.index - 1)
    case Enter =>
      Term(Put(t.screen, NEWLINE), if t.index == NUM_KEYS then t.keys else t.keys[t.index := NUL], 0)
    case ClearScreen =>
      Term(Screen(Blanked(t.screen.video), 0, 0), t.keys, 0)
    case Output(c) =>
      t.(screen := Put(t.screen, c))
    case Struck =>
      t.(keys := t.keys[0 := NUL])
  }

  function HandleAll(t: Term, es: seq<Event>): (r: Term)
    requires IsTerm(t)
    ensures IsTerm(r)
  {
    if es == [] then t else Handle(HandleAll(t, es[..|es| - 1]), es[|es| - 1])
  }

  // ------------------------------------------------------------- three terminals

  datatype Input = To(e: Event) | Switch(target: int)

  /** Three terminals, one of which has the keyboard.  Where the linker has put the key buffers
      decides what lies behind each: behind[i] is the terminal whose buffer follows that of terminal
      i, or -1 for other memory. */
  datatype Desk = Desk(terms: seq<Term>, cur: int, behind: seq<int>)

  predicate IsLayout(behind: seq<int>)
  {
    |behind| == NUM_TERM && forall i :: 0 <= i < NUM_TERM ==> -1 <= behind[i] < NUM_TERM && behind[i] != i
  }

  predicate IsDesk(d: Desk)
  {
    && |d.terms| == NUM_TERM && 0 <= d.cur < NUM_TERM && IsLayout(d.behind)
    && forall i :: 0 <= i < NUM_TERM ==> IsTerm(d.terms[i])
  }

  /** An Enter with 128 pending keys stores its NUL behind the key buffer. */
  predicate Overruns(d: Desk, i: Input)
    requires IsDesk(d)
  {
    i == To(Enter) && d.terms[d.cur].index == NUM_KEYS
  }

  /** The terminal that an input strikes, or -1. */
  function Strikes(d: Desk, i: Input): int
    requires IsDesk(d)
  {
    if Overruns(d, i) then d.behind[d.cur] else -1
  }

  function Step(d: Desk, i: Input): (r: Desk)
    requires IsDesk(d)
    ensures IsDesk(r)
  {
    match i
    case To(e) =>
      var terms, s := d.terms[d.cur := Handle(d.terms[d.cur], e)], Strikes(d, i);
      d.(terms := if s < 0 then terms else terms[s := Handle(terms[s], Struck)])
    case Switch(t) => if 0 <= t < NUM_TERM then d.(cur := t) else d
  }

  function Run(d: Desk, ins: seq<Input>): (r: Desk)
    requires IsDesk(d)
    ensures IsDesk(r)
  {
    if ins == [] then d else Step(Run(d, ins[..|ins| - 1]), ins[|ins| - 1])
  }

  /** What an input is to terminal t. */
  function Received(d: Desk, i: Input, t: int): seq<Event>
    requires IsDesk(d)
  {
    if i.To? && d.cur == t then [i.e] else if t >= 0 && Strikes(d, i) == t then [Struck] else []
  }

  /** The events that reach terminal t. */
  function Sent(d: Desk, ins: seq<Input>, t: int): seq<Event>
    requires IsDesk(d)
  {
    if ins == [] then []
    else Sent(d, ins[..|ins| - 1], t) + Received(Run(d, ins[..|ins| - 1]), ins[|ins| - 1], t)
  }

  /** A switch selects terminal 0, 1 or 2 and does nothing else; other numbers are ignored. */
  lemma {:induction false} SwitchSelects(d: Desk, t: int)
    requires IsDesk(d)
    ensures var d' := Step(d, Switch(t));
            d'.terms == d.terms && d'.behind == d.behind && d'.cur == if 0 <= t < 3 then t else d.cur
  {
  }

  lemma {:induction false} StepIsReceived(d: Desk, i: Input, t: int)
    requires IsDesk(d) && 0 <= t < NUM_TERM
    ensures Step(d, i).terms[t] == HandleAll(d.terms[t], Received(d, i, t))
  {
    hide Handle;
    var got := Received(d, i, t);
    if got != [] {
      assert got[..0] == [] && HandleAll(d.terms[t], got) == Handle(d.terms[t], got[0]);
    }
  }

  lemma {:induction false} HandleConcat(t: Term, a: seq<Event>, b: seq<Event>)
    requires IsTerm(t)
    ensures HandleAll(t, a + b) == HandleAll(HandleAll(t, a), b)
  {
    hide Handle;
    if b == [] {
      assert a + b == a;
    } else {
      assert (a + b)[..|a + b| - 1] == a + b[..|b| - 1];
      HandleConcat(t, a, b[..|b| - 1]);
    }
  }

  /** Over every run, each terminal is what its own events, and the Enters that run over into its
      key buffer, make of it; nothing else of the other terminals reaches it. */
  lemma {:induction false} TerminalsAreIndependent(d: Desk, ins: seq<Input>, t: int)
    requires IsDesk(d) && 0 <= t < NUM_TERM
    ensures Run(d, ins).terms[t] == HandleAll(d.terms[t], Sent(d, ins, t))
  {
    hide Handle, Step, Received;
    if ins != [] {
      var before, last := ins[..|ins| - 1], ins[|ins| - 1];
      TerminalsAreIndependent(d, before, t);
      StepIsReceived(Run(d, before), last, t);
      HandleConcat(d.terms[t], Sent(d, before, t), Received(Run(d, before), last, t));
    }
  }

  /** The k-th input of a run strikes terminal t. */
  predicate StrikesAt(d: Desk, ins: seq<Input>, k: int, t: int)
    requires IsDesk(d) && 0 <= k < |ins|
  {
    Strikes(Run(d, ins[..k]), ins[k]) == t
  }

  /** The k-th input of a run stores a NUL behind a key buffer. */
  predicate OverrunsAt(d: Desk, ins: seq<Input>, k: int)
    requires IsDesk(d) && 0 <= k < |ins|
  {
    Overruns(Run(d, ins[..k]), ins[k])
  }

  ghost predicate IsOverrun(d: Desk, ins: seq<Input>)
    requires IsDesk(d)
  {
    exists k :: 0 <= k < |ins| && OverrunsAt(d, ins, k)
  }

  lemma {:induction false} OverrunMore(d: Desk, ins: seq<Input>, i: Input)
    requires IsDesk(d)
    ensures IsOverrun(d, ins + [i]) <==> IsOverrun(d, ins) || Overruns(Run(d, ins), i)
  {
    var more := ins + [i];
    assert more[..|ins|] == ins;
    assert forall k :: 0 <= k < |ins| ==> ins[..k] == more[..k];
    assert forall k :: 0 <= k < |ins| ==> (OverrunsAt(d, more, k) <==> OverrunsAt(d, ins, k));
    assert OverrunsAt(d, more, |ins|) <==> Overruns(Run(d, ins), i);
  }

  ghost predicate IsStruck(d: Desk, ins: seq<Input>, t: int)
    requires IsDesk(d)
  {
    exists k :: 0 <= k < |ins| && StrikesAt(d, ins, k, t)
  }

  lemma {:induction false} StruckMore(d: Desk, ins: seq<Input>, t: int)
    requires IsDesk(d) && ins != []
    ensures IsStruck(d, ins, t)
            <==> IsStruck(d, ins[..|ins| - 1], t) || Strikes(Run(d, ins[..|ins| - 1]), ins[|ins| - 1]) == t
  {
    var before, last := ins[..|ins| - 1], |ins| - 1;
    assert forall k :: 0 <= k < last ==> before[..k] == ins[..k];
    assert forall k :: 0 <= k < last ==> (StrikesAt(d, ins, k, t) <==> StrikesAt(d, before, k, t));
    assert StrikesAt(d, ins, last, t) <==> Strikes(Run(d, before), ins[last]) == t;
  }

  /** Inputs are what keys, programs and switches cause, never a strike as such. */
  predicate AreInputs(ins: seq<Input>) {
    forall k :: 0 <= k < |ins| ==> ins[k] != To(Struck)
  }

  /** Terminal t receives something of another terminal exactly when an Enter with 128 pending keys
      was pressed on the terminal whose key buffer lies before its own. */
  lemma {:induction false} StruckExactly(d: Desk, ins: seq<Input>, t: int)
    requires IsDesk(d) && 0 <= t < NUM_TERM && AreInputs(ins)
    ensures Struck in Sent(d, ins, t) <==> IsStruck(d, ins, t)
  {
    if ins != [] {
      var before := ins[..|ins| - 1];
      assert AreInputs(before);
      StruckExactly(d, before, t);
      StruckMore(d, ins, t);
    }
  }

  /** One input leaves a terminal that has not the keyboard as it is exactly when it does not strike
      it, or strikes it where a NUL is already. */
  lemma {:induction false} OthersKeepExactly(d: Desk, i: Input, t: int)
    requires IsDesk(d) && 0 <= t < NUM_TERM && t != d.cur
    ensures Step(d, i).terms[t] == d.terms[t] <==> Strikes(d, i) != t || d.terms[t].keys[0] == NUL
  {
    var keys := d.terms[t].keys;
    assert keys[0] == NUL ==> keys[0 := NUL] == keys;
    assert keys[0] != NUL ==> keys[0 := NUL][0] != keys[0];
  }

  /** What happens between leaving a terminal and returning to it leaves its screen, its cursor
      and its pending line as they were, exactly when no Enter ran over into its key buffer, or
      when the first key is a NUL anyway. */
  lemma {:induction false} LeaveAndReturn(d: Desk, away: seq<Input>)
    requires IsDesk(d) && AreInputs(away)
    requires forall k :: 0 <= k < |away| ==> Run(d, away[..k]).cur == d.cur ==> away[k].Switch?
    ensures var r := Run(d, away + [Switch(d.cur)]);
            && r.cur == d.cur
            && (r.terms[d.cur] == d.terms[d.cur] <==> !IsStruck(d, away, d.cur) || d.terms[d.cur].keys[0] == NUL)
  {
    var all := away + [Switch(d.cur)];
    assert all[..|all| - 1] == away;
    TerminalsAreIndependent(d, away, d.cur);
    OnlyStrikes(d, away, d.cur);
    StruckExactly(d, away, d.cur);
    StrikesOnly(d.terms[d.cur], Sent(d, away, d.cur));
    var keys := d.terms[d.cur].keys;
    assert keys[0] == NUL ==> keys[0 := NUL] == keys;
    assert keys[0] != NUL ==> keys[0 := NUL][0] != keys[0];
  }

  predicate AreStrikes(es: seq<Event>) {
    forall k :: 0 <= k < |es| ==> es[k] == Struck
  }

  lemma {:induction false} OnlyStrikes(d: Desk, ins: seq<Input>, t: int)
    requires IsDesk(d)
    requires forall k :: 0 <= k < |ins| ==> Run(d, ins[..k]).cur == t ==> ins[k].Switch?
    ensures AreStrikes(Sent(d, ins, t))
  {
    if ins != [] {
      var before := ins[..|ins| - 1];
      forall k | 0 <= k < |before|
        ensures Run(d, before[..k]).cur == t ==> before[k].Switch?
      {
        assert before[..k] == ins[..k];
      }
      OnlyStrikes(d, before, t);
    }
  }

  lemma {:induction false} StrikesOnly(t: Term, es: seq<Event>)
    requires IsTerm(t) && AreStrikes(es)
    ensures HandleAll(t, es) == if es == [] then t else t.(keys := t.keys[0 := NUL])
  {
    if es != [] {
      StrikesOnly(t, es[..|es| - 1]);
    }
  }

  // ------------------------------------------------------------- the line editor

  predicate IsTyping(e: Event)
  {
    e.Backspace? || (e.Key? && e.c != NUL && !IsBreak(e.c))
  }

  predicate AllTyping(es: seq<Event>)
  {
    forall i :: 0 <= i < |es| ==> IsTyping(es[i])
  }

  /** The text that keys as pushes and backspaces as pops leave; at most 128 keys are held. */
  function Edited(es: seq<Event>): (r: seq<byte>)
    requires AllTyping(es)
    ensures |r| <= NUM_KEYS && NUL !in r
    ensures forall i :: 0 <= i < |r| ==> !IsBreak(r[i])
  {
    if es == [] then []
    else
      var text, e := Edited(es[..|es| - 1]), es[|es| - 1];
      if e.Key? then if |text| < NUM_KEYS then text + [e.c] else text
      else if text == [] then [] else text[..|text| - 1]
  }

  /** The key buffer holds the edited text, whatever longer line was in it before. */
  lemma {:induction false} BufferHoldsText(t: Term, es: seq<Event>)
    requires IsTerm(t) && t.index == 0 && AllTyping(es)
    ensures var r := HandleAll(t, es);
            r.index == |Edited(es)| && r.keys[..r.index] == Edited(es)
  {
    hide Put, Back;
    if es != [] {
      var before := es[..|es| - 1];
      BufferHoldsText(t, before);
      var r, text := HandleAll(t, before), Edited(before);
      var r' := HandleAll(t, es);
      assert r' == Handle(r, es[|es| - 1]);
      if r'.index < r.index {
        assert r'.keys[..r'.index] == r.keys[..r.index][..r'.index];
      }
    }
  }

  /** How many bytes of a key buffer a read of nbytes copies before it stops. */
  function Copied(keys: seq<byte>, nbytes: int): (n: nat)
    requires |keys| == NUM_KEYS
    ensures n <= NUM_KEYS && (nbytes >= 0 ==> n <= nbytes)
    ensures forall i :: 0 <= i < n ==> keys[i] != NUL
    ensures n == NUM_KEYS || n >= nbytes || keys[n] == NUL
  {
    var len := |CString(keys)|;
    if nbytes < 0 then 0 else if len < nbytes then len else nbytes
  }

  /** What keyboard_read returns: a line that fills the whole buffer reads as empty unless the
      caller asked for less. */
  function ReadResult(keys: seq<byte>, nbytes: int): int
    requires |keys| == NUM_KEYS
  {
    if Copied(keys, nbytes) == NUM_KEYS then 0 else Copied(keys, nbytes)
  }

  /** What keyboard_read stores: the bytes before the first NUL, and that NUL if the caller's buffer
      has room for it. */
  function StoredKeys(keys: seq<byte>, nbytes: int): (r: seq<byte>)
    requires |keys| == NUM_KEYS
    ensures |r| <= NUM_KEYS && (r == [] || |r| <= nbytes)
  {
    var n := Copied(keys, nbytes);
    if n < nbytes && n < NUM_KEYS then keys[..n + 1] else keys[..n]
  }

  lemma {:induction false} CopiedIs(keys: seq<byte>, nbytes: int, n: nat)
    requires |keys| == NUM_KEYS && n <= NUM_KEYS && (n == 0 || n <= nbytes)
    requires forall i :: 0 <= i < n ==> keys[i] != NUL
    requires n == NUM_KEYS || n >= nbytes || keys[n] == NUL
    ensures Copied(keys, nbytes) == n
  {
    var len := |CString(keys)|;
    assert forall i :: 0 <= i < len ==> CString(keys)[i] == keys[i];
  }

  /** What a read finds in a key buffer that holds text behind an Enter: the text or as much of it as
      was asked for, and behind all of it a NUL if there is room for it and the buffer has one.  It
      returns the length of the text delivered, but 0 when 128 bytes are. */
  ghost predicate IsDelivered(text: seq<byte>, keys: seq<byte>, nbytes: nat)
    requires |keys| == NUM_KEYS
  {
    var n := if |text| < nbytes then |text| else nbytes;
    && Copied(keys, nbytes) == n && keys[..n] == text[..n]
    && StoredKeys(keys, nbytes) == text[..n] + (if |text| < nbytes && |text| < 128 then [0] else [])
    && ReadResult(keys, nbytes) == if |text| < 128 || nbytes < 128 then n else 0
  }

  /** After Enter a read delivers the edited text in this way. */
  lemma {:induction false} ReadDeliversLine(t: Term, es: seq<Event>, nbytes: nat)
    requires IsTerm(t) && t.index == 0 && AllTyping(es)
    ensures IsDelivered(Edited(es), Handle(HandleAll(t, es), Enter).keys, nbytes)
  {
    BufferHoldsText(t, es);
    EnterEndsLine(HandleAll(t, es), Edited(es), nbytes);
  }

  lemma {:induction false} EnterEndsLine(t: Term, text: seq<byte>, nbytes: nat)
    requires IsTerm(t) && t.index == |text| && t.keys[..t.index] == text && NUL !in text
    ensures IsDelivered(text, Handle(t, Enter).keys, nbytes)
  {
    hide Put;
    var keys := Handle(t, Enter).keys;
    assert keys[..|text|] == t.keys[..|text|];
    TextInKeys(text, keys, nbytes);
  }

  lemma {:induction false} TextInKeys(text: seq<byte>, keys: seq<byte>, nbytes: nat)
    requires |keys| == NUM_KEYS >= |text| && keys[..|text|] == text && NUL !in text
    requires |text| < NUM_KEYS ==> keys[|text|] == NUL
    ensures IsDelivered(text, keys, nbytes)
  {
    hide Copied;
    assert forall i :: 0 <= i < |text| ==> keys[i] == text[i];
    var n := if |text| < nbytes then |text| else nbytes;
    CopiedIs(keys, nbytes, n);
    assert keys[..n] == text[..n];
    assert n < NUM_KEYS ==> keys[..n + 1] == keys[..n] + [keys[n]];
    assert text[..n] + [] == text[..n];
  }

  // ------------------------------------------------------------- output

  function Outputs(text: seq<byte>): (r: seq<Event>)
    ensures |r| == |text|
  {
    seq(|text|, i requires 0 <= i < |text| => Output(text[i]))
  }

  /** What a program writes is printed on its terminal and leaves the pending line alone. */
  lemma {:induction false} OutputIsPrinted(t: Term, text: seq<byte>)
    requires IsTerm(t)
    ensures HandleAll(t, Outputs(text)) == t.(screen := PutAll(t.screen, text))
  {
    hide Put;
    if text != [] {
      var most := text[..|text| - 1];
      OutputIsPrinted(t, most);
      assert Outputs(text)[..|text| - 1] == Outputs(most);
    }
  }

  /** On the terminal that has the keyboard, and on no other. */
  lemma {:induction false} OutputIsOnCurrent(d: Desk, text: seq<byte>)
    requires IsDesk(d)
    ensures var t := d.terms[d.cur];
            Run(d, Tos(Outputs(text))) == d.(terms := d.terms[d.cur := t.(screen := PutAll(t.screen, text))])
  {
    hide HandleAll, Put;
    RunOfTyping(d, Outputs(text));
    OutputIsPrinted(d.terms[d.cur], text);
  }

  /** Ctrl-L gives a blank screen with nothing pending, and what is written then is laid out from its
      upper left corner on. */
  lemma {:induction false} ClearedScreenShows(t: Term, text: seq<byte>)
    requires IsTerm(t)
    ensures var r := HandleAll(Handle(t, ClearScreen), Outputs(text));
            r.index == 0 && r.keys == t.keys && Shows(r.screen, Layout(text), Above(Layout(text)))
  {
    var cleared := Handle(t, ClearScreen);
    BlankedIsCleared(t.screen.video);
    OutputIsPrinted(cleared, text);
    hide Shows, PutAll, Layout, HandleAll;
    PutAllShowsLayout(cleared.screen, text);
  }

  /** Enter starts a new row of the page and leaves nothing pending. */
  lemma {:induction false} EnterStartsRow(t: Term, page: Page, top: int)
    requires IsTerm(t) && Shows(t.screen, page, top)
    ensures var r := Handle(t, Enter);
            r.index == 0 && Shows(r.screen, page + [[]], NextTop(page + [[]], top))
  {
    PutRefinesPage(t.screen, page, top, NEWLINE);
    hide Shows, Put;
  }

  // ------------------------------------------------------------- an Enter that runs over

  function Tos(es: seq<Event>): (r: seq<Input>)
    ensures |r| == |es|
  {
    seq(|es|, i requires 0 <= i < |es| => To(es[i]))
  }

  predicate NoEnter(es: seq<Event>)
  {
    forall i :: 0 <= i < |es| ==> es[i] != Enter
  }

  /** Events that are no Enter only concern the terminal that has the keyboard. */
  lemma {:induction false} RunOfTyping(d: Desk, es: seq<Event>)
    requires IsDesk(d) && NoEnter(es)
    ensures Run(d, Tos(es)) == d.(terms := d.terms[d.cur := HandleAll(d.terms[d.cur], es)])
  {
    hide Handle;
    var ins := Tos(es);
    if es == [] {
      assert d.terms[d.cur := d.terms[d.cur]] == d.terms;
    } else {
      assert ins[..|ins| - 1] == Tos(es[..|es| - 1]);
      RunOfTyping(d, es[..|es| - 1]);
      assert d.terms[d.cur := HandleAll(d.terms[d.cur], es)]
             == d.terms[d.cur := HandleAll(d.terms[d.cur], es[..|es| - 1])][d.cur := HandleAll(d.terms[d.cur], es)];
    }
  }

  /** 128 keys and an Enter on one terminal take the pending line of the terminal behind it: that
      line is delivered as empty when its own Enter comes. */
  lemma {:induction false} OverrunTakesLine(d: Desk, es: seq<Event>, nbytes: nat)
    requires IsDesk(d) && d.behind[d.cur] >= 0 && d.terms[d.cur].index == 0
    requires AllTyping(es) && |Edited(es)| == NUM_KEYS && 0 < d.terms[d.behind[d.cur]].index < NUM_KEYS
    ensures var t := d.behind[d.cur];
            var r := Run(d, Tos(es) + [To(Enter)] + [Switch(t), To(Enter)]);
            r.cur == t && Copied(r.terms[t].keys, nbytes) == 0
  {
    hide Put;
    var t, typed := d.behind[d.cur], Tos(es);
    var d1 := Run(d, typed + [To(Enter)]);
    OverrunStrikes(d, es);
    RunMore(d, typed + [To(Enter)], Switch(t));
    RunMore(d, typed + [To(Enter)] + [Switch(t)], To(Enter));
    assert typed + [To(Enter)] + [Switch(t), To(Enter)] == typed + [To(Enter)] + [Switch(t)] + [To(Enter)];
    hide Run, Edited, AllTyping;
    EnterAfterStrike(d1, t, nbytes);
  }

  lemma {:induction false} EnterAfterStrike(d: Desk, t: int, nbytes: nat)
    requires IsDesk(d) && 0 <= t < NUM_TERM && d.terms[t].keys[0] == NUL && d.terms[t].index < NUM_KEYS
    ensures var r := Step(Step(d, Switch(t)), To(Enter));
            r.cur == t && Copied(r.terms[t].keys, nbytes) == 0
  {
    hide Put;
    CopiedIs(Step(Step(d, Switch(t)), To(Enter)).terms[t].keys, nbytes, 0);
  }

  /** 128 keys and an Enter strike the terminal behind. */
  lemma {:induction false} OverrunStrikes(d: Desk, es: seq<Event>)
    requires IsDesk(d) && d.behind[d.cur] >= 0 && d.terms[d.cur].index == 0
    requires AllTyping(es) && |Edited(es)| == NUM_KEYS
    ensures var t := d.behind[d.cur];
            Run(d, Tos(es) + [To(Enter)]).terms[t] == Handle(d.terms[t], Struck)
  {
    RunOfTyping(d, es);
    RunMore(d, Tos(es), To(Enter));
    BufferHoldsText(d.terms[d.cur], es);
    hide Run, Edited, Put, AllTyping, HandleAll;
    var d0 := Run(d, Tos(es));
    assert d0.terms[d.behind[d.cur]] == d.terms[d.behind[d.cur]];
    assert Strikes(d0, To(Enter)) == d.behind[d.cur];
  }

  lemma {:induction false} NothingRun(d: Desk)
    requires IsDesk(d)
    ensures Run(d, []) == d && !IsOverrun(d, [])
  {
  }

  lemma {:induction false} RunMore(d: Desk, ins: seq<Input>, i: Input)
    requires IsDesk(d)
    ensures Run(d, ins + [i]) == Step(Run(d, ins), i)
  {
    assert (ins + [i])[..|ins|] == ins;
  }

  // ------------------------------------------------------------- the editor's screen

  function PutAllPage(page: Page, text: seq<byte>): (r: Page)
    requires page != []
    ensures r != []
  {
    if text == [] then page else PutPage(PutAllPage(page, text[..|text| - 1]), text[|text| - 1])
  }

  lemma {:induction false} PutAllPageIsPage(page: Page, text: seq<byte>)
    requires IsPage(page)
    ensures IsPage(PutAllPage(page, text))
  {
    if text != [] {
      PutAllPageIsPage(page, text[..|text| - 1]);
    }
  }

  /** The k-th event does not erase with the cursor at the start of screen row 0 or 1, or what it
      erases at the start of row 1 is a blank. */
  ghost predicate ErasesAt(t: Term, es: seq<Event>, k: int)
    requires IsTerm(t) && AllTyping(es) && 0 <= k < |es|
  {
    var s, text := HandleAll(t, es[..k]).screen, Edited(es[..k]);
    es[k].Backspace? && text != [] ==> s.x > 0 || s.y > 1 || (s.y == 1 && text[|text| - 1] == SPACE)
  }

  ghost predicate ErasesInSight(t: Term, es: seq<Event>)
    requires IsTerm(t) && AllTyping(es)
  {
    forall k :: 0 <= k < |es| ==> ErasesAt(t, es, k)
  }

  /** The first row that the screen shows after typing. */
  function TopAfter(page: Page, top: int, es: seq<Event>): int
    requires page != [] && AllTyping(es)
  {
    if es == [] then top
    else
      NextTop(PutAllPage(page, Edited(es)), TopAfter(page, top, es[..|es| - 1]))
  }

  /** After k events the screen shows the page as it was before, with the edited text behind it. */
  ghost predicate ShowsAt(t: Term, es: seq<Event>, k: int, page: Page, top: int)
    requires IsTerm(t) && AllTyping(es) && 0 <= k <= |es| && page != []
  {
    Shows(HandleAll(t, es[..k]).screen, PutAllPage(page, Edited(es[..k])), TopAfter(page, top, es[..k]))
  }

  /** The screen shows exactly the edited text at every moment if and only if no backspace meets the
      case in which it leaves its character. */
  lemma {:induction false} ScreenShowsText(t: Term, es: seq<Event>, page: Page, top: int)
    requires IsTerm(t) && t.index == 0 && AllTyping(es) && Shows(t.screen, page, top)
    ensures (forall k :: 0 <= k <= |es| ==> ShowsAt(t, es, k, page, top)) <==> ErasesInSight(t, es)
  {
    assert IsPage(page);
    hide Shows, ShowsAt, ErasesAt;
    if forall k :: 0 <= k <= |es| ==> ShowsAt(t, es, k, page, top) {
      forall k | 0 <= k < |es|
        ensures ErasesAt(t, es, k)
      {
        ShowsNext(t, es, k, page, top);
      }
    }
    if ErasesInSight(t, es) {
      forall k | 0 <= k <= |es|
        ensures ShowsAt(t, es, k, page, top)
      {
        ShowsUpTo(t, es, k, page, top);
      }
    }
  }

  lemma {:induction false} ShowsUpTo(t: Term, es: seq<Event>, k: nat, page: Page, top: int)
    requires IsTerm(t) && t.index == 0 && AllTyping(es) && Shows(t.screen, page, top)
    requires k <= |es| && ErasesInSight(t, es)
    ensures ShowsAt(t, es, k, page, top)
  {
    if k > 0 {
      ShowsUpTo(t, es, k - 1, page, top);
      ShowsNext(t, es, k - 1, page, top);
      hide ShowsAt, ErasesAt;
      assert ErasesAt(t, es, k - 1);
    } else {
      assert es[..0] == [];
    }
  }

  lemma {:induction false} ShowsNext(t: Term, es: seq<Event>, k: nat, page: Page, top: int)
    requires IsTerm(t) && t.index == 0 && AllTyping(es) && IsPage(page)
    requires k < |es| && ShowsAt(t, es, k, page, top)
    ensures ShowsAt(t, es, k + 1, page, top) <==> ErasesAt(t, es, k)
  {
    hide Handle, Shows, PutAllPage, NextTop;
    var before, now := es[..k], es[..k + 1];
    assert now[..|now| - 1] == before && now[k] == es[k];
    BufferHoldsText(t, before);
    ScreenStep(HandleAll(t, before), es[k], page, Edited(before), TopAfter(page, top, before));
  }

  lemma {:induction false} ScreenStep(t: Term, e: Event, page: Page, text: seq<byte>, top: int)
    requires IsTerm(t) && IsTyping(e) && IsPage(page) && t.index == |text|
    requires forall i :: 0 <= i < |text| ==> !IsBreak(text[i])
    requires Shows(t.screen, PutAllPage(page, text), top)
    ensures var text' := if e.Key? then if |text| < NUM_KEYS then text + [e.c] else text
                         else if text == [] then [] else text[..|text| - 1];
            Shows(Handle(t, e).screen, PutAllPage(page, text'), NextTop(PutAllPage(page, text'), top))
            <==> (e.Backspace? && text != [] ==>
                    t.screen.x > 0 || t.screen.y > 1 || (t.screen.y == 1 && text[|text| - 1] == SPACE))
  {
    var shown := PutAllPage(page, text);
    if e.Key? && |text| < NUM_KEYS {
      assert (text + [e.c])[..|text|] == text;
      PutRefinesPage(t.screen, shown, top, e.c);
    } else if e.Backspace? && text != [] {
      var shorter := text[..|text| - 1];
      PutAllPageIsPage(page, shorter);
      PopPut(PutAllPage(page, shorter), text[|text| - 1]);
      BackRefinesPage(t.screen, shown, top);
      assert |PutAllPage(page, shorter)| <= |shown|;
    }
  }

  /** How often the screen has scrolled while es was typed. */
  function Scrolls(t: Term, es: seq<Event>): (n: nat)
    requires IsTerm(t)
  {
    if es == [] then 0
    else
      var before := HandleAll(t, es[..|es| - 1]);
      Scrolls(t, es[..|es| - 1])
      + if es[|es| - 1].Key? && before.index < NUM_KEYS && before.screen.x == COLS - 1 && before.screen.y == ROWS - 1
        then 1 else 0
  }

  /** The cursor is as many cells behind its start as keys are pending, and 128 keys cannot scroll
      the start of the line near the top of the screen. */
  lemma {:induction false} CursorFollowsKeys(t: Term, es: seq<Event>)
    requires IsTerm(t) && t.index == 0 && AllTyping(es)
    ensures var r, n := HandleAll(t, es), Scrolls(t, es);
            && COLS * (r.screen.y + n) + r.screen.x == COLS * t.screen.y + t.screen.x + r.index
            && (n == 0 || n <= t.screen.y - 22)
  {
    hide Poked, Scrolled;
    if es != [] {
      var before := es[..|es| - 1];
      assert AllTyping(before);
      CursorFollowsKeys(t, before);
      var r := HandleAll(t, before);
      assert HandleAll(t, es) == Handle(r, es[|es| - 1]);
    }
  }

  /** A line that starts below screen row 0 is always erased in sight. */
  lemma {:induction false} BelowTopRowErasesInSight(t: Term, es: seq<Event>)
    requires IsTerm(t) && t.index == 0 && AllTyping(es) && t.screen.y >= 1
    ensures ErasesInSight(t, es)
  {
    forall k | 0 <= k < |es|
      ensures ErasesAt(t, es, k)
    {
      BufferHoldsText(t, es[..k]);
      CursorFollowsKeys(t, es[..k]);
    }
  }

  // ------------------------------------------------------------- typing and erasing

  function Typed(text: seq<byte>): (r: seq<Event>)
    ensures |r| == |text|
  {
    seq(|text|, i requires 0 <= i < |text| => Key(text[i]))
  }

  function Erased(k: nat): (r: seq<Event>)
    ensures |r| == k
  {
    seq(k, _ => Backspace)
  }

  /** Typing a text and erasing all of it again. */
  ghost function TypedErased(t: Term, text: seq<byte>): (r: Term)
    requires IsTerm(t)
    ensures IsTerm(r)
  {
    HandleAll(t, Typed(text) + Erased(|text|))
  }

  /** The first character is typed first and erased last. */
  lemma {:induction false} TypedErasedStep(t: Term, c: byte, rest: seq<byte>)
    requires IsTerm(t)
    ensures TypedErased(t, []) == t
    ensures TypedErased(t, [c] + rest) == Handle(TypedErased(Handle(t, Key(c)), rest), Backspace)
  {
    hide Handle;
    var inner := Typed(rest) + Erased(|rest|);
    assert Typed([]) + Erased(0) == [];
    assert Typed([c] + rest) + Erased(|rest| + 1) == ([Key(c)] + inner) + [Backspace];
    HandleConcat(t, [Key(c)] + inner, [Backspace]);
    HandleConcat(t, [Key(c)], inner);
    HandleOne(t, Key(c));
    HandleOne(HandleAll(t, [Key(c)] + inner), Backspace);
  }

  lemma {:induction false} HandleOne(t: Term, e: Event)
    requires IsTerm(t)
    ensures HandleAll(t, [e]) == Handle(t, e)
  {
    assert [e][..0] == [];
  }

  predicate IsTypable(text: seq<byte>) {
    forall i :: 0 <= i < |text| ==> text[i] != NUL && !IsBreak(text[i])
  }

  lemma {:induction false} EditedMore(es: seq<Event>, e: Event)
    requires AllTyping(es) && IsTyping(e)
    ensures AllTyping(es + [e])
    ensures var line := Edited(es);
            Edited(es + [e]) == if e.Key? then if |line| < NUM_KEYS then line + [e.c] else line
                                else if line == [] then [] else line[..|line| - 1]
  {
    assert (es + [e])[..|es|] == es;
  }

  lemma {:induction false} AtMost128(es: seq<Event>)
    requires AllTyping(es)
    ensures |Edited(es)| <= 128
  {
  }

  /** Typing a text appends it to the line, up to 128 keys. */
  lemma {:induction false} EditedTyped(es: seq<Event>, text: seq<byte>)
    requires AllTyping(es) && IsTypable(text)
    ensures AllTyping(es + Typed(text))
    ensures var line := Edited(es) + text;
            Edited(es + Typed(text)) == if |line| <= 128 then line else line[..128]
  {
    hide Edited;
    if text == [] {
      assert es + Typed(text) == es && Edited(es) + [] == Edited(es);
      AtMost128(es);
    } else {
      var most, c := text[..|text| - 1], text[|text| - 1];
      EditedTyped(es, most);
      assert es + Typed(text) == (es + Typed(most)) + [Key(c)];
      EditedMore(es + Typed(most), Key(c));
      assert (Edited(es) + most) + [c] == Edited(es) + text;
    }
  }

  /** Backspaces take keys off its end. */
  lemma {:induction false} EditedErased(es: seq<Event>, n: nat)
    requires AllTyping(es)
    ensures AllTyping(es + Erased(n))
    ensures var line := Edited(es);
            Edited(es + Erased(n)) == if n <= |line| then line[..|line| - n] else []
  {
    hide Edited;
    if n == 0 {
      assert es + Erased(n) == es;
    } else {
      EditedErased(es, n - 1);
      assert es + Erased(n) == (es + Erased(n - 1)) + [Backspace];
      EditedMore(es + Erased(n - 1), Backspace);
    }
  }

  /** Typing a and b, taking b back and typing c leaves a and c. */
  lemma {:induction false} EditedAgain(a: seq<byte>, b: seq<byte>, c: seq<byte>)
    requires IsTypable(a) && IsTypable(b) && IsTypable(c) && |a| + |b| <= 128 && |a| + |c| <= 128
    ensures var es := Typed(a) + Typed(b) + Erased(|b|) + Typed(c);
            AllTyping(es) && Edited(es) == a + c
  {
    EditedTyped([], a);
    assert [] + Typed(a) == Typed(a) && [] + a == a;
    EditedTyped(Typed(a), b);
    EditedErased(Typed(a) + Typed(b), |b|);
    EditedTyped(Typed(a) + Typed(b) + Erased(|b|), c);
  }

  /** How often the screen scrolls while n characters are typed. */
  function RowsScrolled(s: Screen, n: nat): nat
    requires OnScreen(s)
  {
    var bottom := s.y + (s.x + n) / COLS;
    if bottom >= ROWS then bottom - (ROWS - 1) else 0
  }

  /** After typing and erasing, the count and the column are as before, and the row is as many
      higher as the screen has scrolled. */
  lemma {:induction false} TypedErasedCursor(t: Term, text: seq<byte>)
    requires IsTerm(t) && t.index + |text| <= NUM_KEYS && IsTypable(text)
    ensures var r := TypedErased(t, text);
            && r.index == t.index && r.screen.x == t.screen.x
            && r.screen.y == t.screen.y - RowsScrolled(t.screen, |text|)
    decreases |text|
  {
    hide Poked, Scrolled, TypedErased;
    TypedErasedStep(t, NUL, []);
    if text != [] {
      var c, rest := text[0], text[1..];
      assert text == [c] + rest;
      TypedErasedStep(t, c, rest);
      TypedErasedCursor(Handle(t, Key(c)), rest);
    }
  }

  /** Every character is taken off the screen again, except one that was typed at the end of screen
      row 0 and is not a blank. */
  predicate Restores(s: Screen, text: seq<byte>)
  {
    s.y >= 1 || s.x + |text| < COLS || (0 <= COLS - 1 - s.x < |text| && text[COLS - 1 - s.x] == SPACE)
  }

  lemma {:induction false} RestoresStep(s: Screen, c: byte, rest: seq<byte>)
    requires OnScreen(s) && !IsBreak(c)
    ensures s.y == 0 && s.x < COLS - 1 ==> (Restores(s, [c] + rest) <==> Restores(Put(s, c), rest))
    ensures s.y == 0 && s.x == COLS - 1 ==> (Restores(s, [c] + rest) <==> c == SPACE)
    ensures s.y >= 1 || s.x == COLS - 1 ==> Restores(Put(s, c), rest)
  {
    hide Poked, Scrolled;
  }

  /** The character that stays behind. */
  ghost predicate LeavesResidue(s: Screen, r: Screen, text: seq<byte>)
    requires OnScreen(s) && OnScreen(r)
  {
    && 0 <= COLS - 1 - s.x < |text| && r.y == 0 && r.x == s.x
    && r.video[2 * (COLS - 1)] == text[COLS - 1 - s.x] != SPACE
  }

  lemma {:induction false} EraseFirst(s1: Screen, page: Page, c: byte, top: int)
    requires IsPage(page) && Shows(s1, PutPage(page, c), top) && !IsBreak(c)
    ensures Shows(Back(s1), page, top) <==> s1.x > 0 || s1.y > 1 || (s1.y == 1 && c == SPACE)
    ensures s1.x == 0 && s1.y == 1 ==> Back(s1).video[2 * (COLS - 1)] == c
  {
    PopPut(page, c);
    BackRefinesPage(s1, PutPage(page, c), top);
    if s1.x == 0 && s1.y == 1 {
      assert CellShows(s1.video, PutPage(page, c), top, 0, COLS - 1);
    }
  }

  lemma {:induction false} BackKeepsEndOfRow0(s: Screen)
    requires OnScreen(s) && s.y == 0 && 0 < s.x
    ensures Back(s).video[2 * (COLS - 1)] == s.video[2 * (COLS - 1)]
  {
  }

  /** What typing and erasing leaves: the page, or the page with one character too many. */
  lemma {:induction false} TypedErasedScreen(t: Term, text: seq<byte>, page: Page, top: int)
    requires IsTerm(t) && t.index + |text| <= NUM_KEYS && IsTypable(text) && Shows(t.screen, page, top)
    ensures var r := TypedErased(t, text);
            if Restores(t.screen, text) then exists top' :: Shows(r.screen, page, top')
            else LeavesResidue(t.screen, r.screen, text)
    decreases |text|
  {
    assert IsPage(page);
    hide Shows, Put, Back, PutPage, IsPage, TypedErased, Restores, LeavesResidue, RowsScrolled;
    TypedErasedStep(t, NUL, []);
    if text == [] {
      NothingTyped(t, page, top);
    } else {
      var c, rest := text[0], text[1..];
      assert text == [c] + rest;
      var t1, page1 := Handle(t, Key(c)), PutPage(page, c);
      PutRefinesPage(t.screen, page, top, c);
      TypedErasedStep(t, c, rest);
      TypedErasedScreen(t1, rest, page1, NextTop(page1, top));
      TypedErasedFirst(t, c, rest, page);
    }
  }

  lemma {:induction false} NothingTyped(t: Term, page: Page, top: int)
    requires IsTerm(t) && Shows(t.screen, page, top)
    ensures Restores(t.screen, []) && exists top' :: Shows(t.screen, page, top')
  {
  }

  lemma {:induction false} TypedErasedFirst(t: Term, c: byte, rest: seq<byte>, page: Page)
    requires IsTerm(t) && t.index + 1 + |rest| <= NUM_KEYS && IsTypable([c] + rest) && IsPage(page)
    requires var t1 := Handle(t, Key(c));
             var r1 := TypedErased(t1, rest);
             if Restores(t1.screen, rest) then exists top' :: Shows(r1.screen, PutPage(page, c), top')
             else LeavesResidue(t1.screen, r1.screen, rest)
    ensures var r := Handle(TypedErased(Handle(t, Key(c)), rest), Backspace);
            if Restores(t.screen, [c] + rest) then exists top' :: Shows(r.screen, page, top')
            else LeavesResidue(t.screen, r.screen, [c] + rest)
  {
    var text, t1 := [c] + rest, Handle(t, Key(c));
    assert text[0] == c && IsTypable(rest) by {
      assert forall i :: 0 <= i < |rest| ==> rest[i] == text[i + 1];
    }
    var r1 := TypedErased(t1, rest);
    TypedErasedCursor(t1, rest);
    RestoresStep(t.screen, c, rest);
    CursorAfterFirst(t.screen, c, |rest|);
    hide Shows, Back, PutPage, IsPage, TypedErased, Restores, RowsScrolled, Poked, Scrolled;
    var r := Handle(r1, Backspace);
    assert r.screen == Back(r1.screen);
    if Restores(t1.screen, rest) {
      var top1 :| Shows(r1.screen, PutPage(page, c), top1);
      EraseFirst(r1.screen, page, c, top1);
      if Restores(t.screen, text) {
        assert Shows(r.screen, page, top1);
      }
    } else {
      BackKeepsEndOfRow0(r1.screen);
      assert rest[COLS - 1 - t1.screen.x] == text[COLS - 1 - t.screen.x];
    }
  }

  /** Where the cursor is when the first character is about to be erased. */
  lemma {:induction false} CursorAfterFirst(s: Screen, c: byte, n: nat)
    requires OnScreen(s) && !IsBreak(c) && n < NUM_KEYS
    ensures var s1 := Put(s, c);
            var y := s1.y - RowsScrolled(s1, n);
            && (s.x < COLS - 1 ==> s1.x == s.x + 1)
            && (s.x == COLS - 1 ==> s1.x == 0 && (if s.y == 0 then y == 1 else y > 1))
            && (s.y == 0 && s.x < COLS - 1 ==> s1.y == 0)
  {
    hide Poked, Scrolled;
  }

  /** Any number of characters and as many backspaces leave the page, the cursor and the pending
      count as they were if and only if no character but a blank is typed at the end of screen
      row 0. */
  lemma {:induction false} TypeThenEraseAll(t: Term, text: seq<byte>, page: Page, top: int)
    requires IsTerm(t) && t.index + |text| <= NUM_KEYS && IsTypable(text) && Shows(t.screen, page, top)
    ensures var r := TypedErased(t, text);
            && r.index == t.index && r.screen.x == t.screen.x
            && ((exists top' :: Shows(r.screen, page, top'))
                <==> t.screen.y >= 1 || t.screen.x + |text| < COLS || text[COLS - 1 - t.screen.x] == SPACE)
  {
    hide TypedErased;
    var r := TypedErased(t, text);
    TypedErasedCursor(t, text);
    TypedErasedScreen(t, text, page, top);
    if !Restores(t.screen, text) {
      assert forall top' :: Shows(r.screen, page, top') ==> CellShows(r.screen.video, page, top', 0, COLS - 1);
    }
  }

  // ------------------------------------------------------------- the driver

  /** What terminals[i] keeps of a terminal that is not on the screen. */
  datatype Saved = Saved(index: int, x: int, y: int, inUse: bool)

  predicate IsSaved(s: Saved)
  {
    0 <= s.x < COLS && 0 <= s.y < ROWS && 0 <= s.index <= NUM_KEYS
  }

  /** Keys without a character are ignored before they get here; terminal numbers are unsigned. */
  predicate Deliverable(i: Input)
  {
    (i.To? ==> !i.e.Struck? && (i.e.Key? ==> i.e.c != NUL)) && (i.Switch? ==> i.target >= 0)
  }

  predicate Painted(video: seq<byte>)
    requires |video| == VIDEO_SIZE
  {
    forall k :: 0 <= k < 2 * CELLS && k % 2 == 1 ==> video[k] == ATTRIB
  }

  predicate StartsAtOrigin(t: Term)
    requires IsTerm(t)
  {
    t.screen.x == 0 && t.screen.y == 0 && t.index == 0 && Painted(t.screen.video)
  }

  /** Everything the driver works on: one screen, the pages and key buffers behind the terminals,
      what is saved of them, one key index and the current terminal. */
  datatype Hardware = Hardware(screen: Screen, pages: seq<seq<byte>>, keys: seq<seq<byte>>, saved: seq<Saved>,
                               index: int, cur: int, behind: seq<int>)

  predicate IsHardware(h: Hardware)
  {
    && OnScreen(h.screen) && |h.pages| == NUM_TERM && |h.keys| == NUM_TERM && |h.saved| == NUM_TERM
    && (forall i :: 0 <= i < NUM_TERM ==> |h.pages[i]| == VIDEO_SIZE && |h.keys[i]| == NUM_KEYS && IsSaved(h.saved[i]))
    && 0 <= h.index <= NUM_KEYS && 0 <= h.cur < NUM_TERM && IsLayout(h.behind)
  }

  /** Terminal i as it would be on its own: the current one is on the screen, the others are saved. */
  function TermOf(h: Hardware, i: int): (r: Term)
    requires IsHardware(h) && 0 <= i < NUM_TERM
    ensures IsTerm(r)
  {
    if i == h.cur then Term(h.screen, h.keys[i], h.index)
    else Term(Screen(h.pages[i], h.saved[i].x, h.saved[i].y), h.keys[i], h.saved[i].index)
  }

  function DeskOf(h: Hardware): (r: Desk)
    requires IsHardware(h)
    ensures IsDesk(r)
  {
    Desk([TermOf(h, 0), TermOf(h, 1), TermOf(h, 2)], h.cur, h.behind)
  }

  /** terminal_save of the current terminal. */
  function SavedHardware(h: Hardware, id: int): (r: Hardware)
    requires IsHardware(h) && 0 <= id < NUM_TERM
    ensures IsHardware(r)
  {
    h.(pages := h.pages[id := h.screen.video],
       saved := h.saved[id := Saved(h.index, h.screen.x, h.screen.y, h.saved[id].inUse)])
  }

  /** terminal_restore. */
  function RestoredHardware(h: Hardware, id: int): (r: Hardware)
    requires IsHardware(h) && 0 <= id < NUM_TERM
    ensures IsHardware(r)
  {
    h.(screen := Screen(h.pages[id], h.saved[id].x, h.saved[id].y), index := h.saved[id].index)
  }

  function WithInUse(h: Hardware, id: int): (r: Hardware)
    requires IsHardware(h) && 0 <= id < NUM_TERM
    ensures IsHardware(r)
  {
    h.(saved := h.saved[id := h.saved[id].(inUse := true)])
  }

  /** Saving one terminal and restoring another is a switch. */
  lemma {:induction false} SaveRestoreSwitches(h: Hardware, id: int)
    requires IsHardware(h) && 0 <= id < NUM_TERM
    ensures DeskOf(RestoredHardware(SavedHardware(h, h.cur), id).(cur := id)) == Step(DeskOf(h), Switch(id))
    ensures DeskOf(RestoredHardware(WithInUse(SavedHardware(h, h.cur), id).(cur := id), id))
            == Step(DeskOf(h), Switch(id))
  {
  }

  /** The driver's state with another screen, another buffer of the current terminal and another index. */
  function Edit(h: Hardware, s: Screen, keys: seq<byte>, index: int): (r: Hardware)
    requires IsHardware(h) && OnScreen(s) && |keys| == NUM_KEYS && 0 <= index <= NUM_KEYS
    ensures IsHardware(r)
  {
    h.(screen := s, keys := h.keys[h.cur := keys], index := index)
  }

  /** An edit changes the current terminal and no other. */
  lemma {:induction false} EditIsOwn(h: Hardware, s: Screen, keys: seq<byte>, index: int)
    requires IsHardware(h) && OnScreen(s) && |keys| == NUM_KEYS && 0 <= index <= NUM_KEYS
    ensures DeskOf(Edit(h, s, keys, index)) == DeskOf(h).(terms := DeskOf(h).terms[h.cur := Term(s, keys, index)])
  {
  }

  function Redrawn(h: Hardware, s: Screen, index: int): (r: Hardware)
    requires IsHardware(h) && OnScreen(s) && 0 <= index <= NUM_KEYS
    ensures IsHardware(r)
  {
    h.(screen := s, index := index)
  }

  lemma {:induction false} RedrawIsOwn(h: Hardware, s: Screen, index: int)
    requires IsHardware(h) && OnScreen(s) && 0 <= index <= NUM_KEYS
    ensures DeskOf(Redrawn(h, s, index))
            == DeskOf(h).(terms := DeskOf(h).terms[h.cur := Term(s, DeskOf(h).terms[h.cur].keys, index)])
  {
  }

  /** A NUL over the first key of another terminal. */
  function Stricken(h: Hardware, t: int): (r: Hardware)
    requires IsHardware(h) && 0 <= t < NUM_TERM
    ensures IsHardware(r)
  {
    var keys: seq<byte> := h.keys[t];
    h.(keys := h.keys[t := keys[0 := NUL]])
  }

  lemma {:induction false} StrickenIsStruck(h: Hardware, t: int)
    requires IsHardware(h) && 0 <= t < NUM_TERM
    ensures DeskOf(Stricken(h, t)) == DeskOf(h).(terms := DeskOf(h).terms[t := Handle(DeskOf(h).terms[t], Struck)])
  {
  }

  /** The NUL of an Enter. */
  function LineEnded(h: Hardware): (r: Hardware)
    requires IsHardware(h)
    ensures IsHardware(r)
  {
    var keys: seq<byte> := h.keys[h.cur];
    if h.index < NUM_KEYS then h.(keys := h.keys[h.cur := keys[h.index := NUL]])
    else if h.behind[h.cur] >= 0 then Stricken(h, h.behind[h.cur])
    else h
  }

  /** What the driver's handlers leave. */
  function Dispatched(h: Hardware, e: Event): (r: Hardware)
    requires IsHardware(h)
    ensures IsHardware(r)
  {
    var keys := h.keys[h.cur];
    match e
    case Key(c) =>
      if h.index == NUM_KEYS then h else Edit(h, Put(h.screen, c), keys[h.index := c], h.index + 1)
    case Backspace =>
      if h.index == 0 then h else Edit(h, Back(h.screen), keys[h.index - 1 := NUL], h.index - 1)
    case Enter => Redrawn(LineEnded(h), Put(h.screen, NEWLINE), 0)
    case ClearScreen => Redrawn(h, Screen(Blanked(h.screen.video), 0, 0), 0)
    case Output(c) => Redrawn(h, Put(h.screen, c), h.index)
    case Struck => Stricken(h, h.cur)
  }

  lemma {:induction false} EnterIsStep(h: Hardware)
    requires IsHardware(h)
    ensures DeskOf(Dispatched(h, Enter)) == Step(DeskOf(h), To(Enter))
  {
    var d, keys := DeskOf(h), h.keys[h.cur];
    if h.index < NUM_KEYS {
      assert Dispatched(h, Enter) == Edit(h, Put(h.screen, NEWLINE), keys[h.index := NUL], 0);
    }
    hide Put, Edit, Redrawn, Stricken;
    if h.index < NUM_KEYS {
      EditIsOwn(h, Put(h.screen, NEWLINE), keys[h.index := NUL], 0);
    } else if h.behind[h.cur] < 0 {
      RedrawIsOwn(h, Put(h.screen, NEWLINE), 0);
    } else {
      var s := h.behind[h.cur];
      StrickenIsStruck(h, s);
      RedrawIsOwn(Stricken(h, s), Put(h.screen, NEWLINE), 0);
      var own := Handle(d.terms[h.cur], Enter);
      var struck := Handle(d.terms[s], Struck);
      assert d.terms[s := struck][h.cur := own] == d.terms[h.cur := own][s := struck];
    }
  }

  /** Every handler is one step of the three terminals. */
  lemma {:induction false} DispatchedIsStep(h: Hardware, e: Event)
    requires IsHardware(h) && !e.Struck?
    ensures DeskOf(Dispatched(h, e)) == Step(DeskOf(h), To(e))
  {
    if e.Enter? {
      EnterIsStep(h);
    } else {
      OwnIsStep(h, e);
    }
  }

  lemma {:induction false} OwnIsStep(h: Hardware, e: Event)
    requires IsHardware(h) && !e.Struck? && !e.Enter?
    ensures DeskOf(Dispatched(h, e)) == Step(DeskOf(h), To(e))
  {
    var d, keys := DeskOf(h), h.keys[h.cur];
    assert d.terms[h.cur] == Term(h.screen, keys, h.index);
    assert d.terms[h.cur := d.terms[h.cur]] == d.terms;
    hide Put, Back, Blanked, Edit, Redrawn, IsHardware, DeskOf;
    match e
    case Key(c) =>
      if h.index < NUM_KEYS {
        EditIsOwn(h, Put(h.screen, c), keys[h.index := c], h.index + 1);
      }
    case Backspace =>
      if h.index > 0 {
        EditIsOwn(h, Back(h.screen), keys[h.index - 1 := NUL], h.index - 1);
      }
    case ClearScreen => RedrawIsOwn(h, Screen(Blanked(h.screen.video), 0, 0), 0);
    case Output(c) => RedrawIsOwn(h, Put(h.screen, c), h.index);
  }

  /** Three zeroed arrays. */
  method ThreeArrays(n: nat) returns (r: seq<array<byte>>)
    ensures |r| == 3 && forall i :: 0 <= i < 3 ==> fresh(r[i]) && r[i].Length == n
    ensures forall i, j :: 0 <= i < j < 3 ==> r[i] != r[j]
  {
    var a, b, c := new byte[n](_ => 0), new byte[n](_ => 0), new byte[n](_ => 0);
    r := [a, b, c];
  }

  class Console {
    const vga: Vga
    const buffKeyPtr: seq<array<byte>>   // one key buffer a terminal
    const pages: seq<array<byte>>        // the physical pages behind the terminals
    const behind: seq<int>               // whose key buffer follows each key buffer
    var slot: int                        // the page that the shared page-table entry maps
    var bufferIndex: int
    var curTerm: int
    var terminals: seq<Saved>
    var overrun: bool                    // an Enter was stored behind its key buffer

    /** The arrays are what they are for the life of the console. */
    ghost predicate HasArrays()
    {
      && |buffKeyPtr| == NUM_TERM && |pages| == NUM_TERM && vga.video.Length == VIDEO_SIZE
      && (forall i :: 0 <= i < NUM_TERM ==> buffKeyPtr[i].Length == NUM_KEYS && pages[i].Length == VIDEO_SIZE)
      && (forall i, j :: 0 <= i < NUM_TERM && 0 <= j < NUM_TERM ==> buffKeyPtr[i] != pages[j])
      && (forall i, j :: 0 <= i < j < NUM_TERM ==> buffKeyPtr[i] != buffKeyPtr[j] && pages[i] != pages[j])
      && (forall i :: 0 <= i < NUM_TERM ==> buffKeyPtr[i] != vga.video && pages[i] != vga.video)
    }

    ghost function Pages(): (r: seq<seq<byte>>)
      requires HasArrays()
      reads pages
      ensures |r| == NUM_TERM && forall i :: 0 <= i < NUM_TERM ==> r[i] == pages[i][..] && |r[i]| == VIDEO_SIZE
    {
      [pages[0][..], pages[1][..], pages[2][..]]
    }

    ghost function Keys(): (r: seq<seq<byte>>)
      requires HasArrays()
      reads buffKeyPtr
      ensures |r| == NUM_TERM && forall i :: 0 <= i < NUM_TERM ==> r[i] == buffKeyPtr[i][..] && |r[i]| == NUM_KEYS
    {
      [buffKeyPtr[0][..], buffKeyPtr[1][..], buffKeyPtr[2][..]]
    }

    ghost function Now(): Hardware
      requires HasArrays()
      reads this, vga, vga.video, buffKeyPtr, pages
    {
      Hardware(vga.Now(), Pages(), Keys(), terminals, bufferIndex, curTerm, behind)
    }

    ghost predicate Valid()
      reads this, vga, vga.video, buffKeyPtr, pages
    {
      HasArrays() && IsHardware(Now()) && 0 <= slot < NUM_TERM
    }

    ghost function State(): (r: Desk)
      requires Valid()
      reads this, vga, vga.video, buffKeyPtr, pages
      ensures IsDesk(r)
    {
      DeskOf(Now())
    }

    constructor (behind: seq<int>)
      requires IsLayout(behind)
      ensures Valid() && !overrun && this.behind == behind
    {
      this.behind := behind;
      vga := new Vga();
      var keyArrays := ThreeArrays(NUM_KEYS);
      var pageArrays := ThreeArrays(VIDEO_SIZE);
      buffKeyPtr, pages := keyArrays, pageArrays;
      terminals := [Saved(0, 0, 0, false), Saved(0, 0, 0, false), Saved(0, 0, 0, false)];
      slot, bufferIndex, curTerm, overrun := 0, 0, 0, false;
      new;
      assert HasArrays();
      hide HasArrays;
    }

    /** The loop of init_terminals. */
    method ClearTerminals()
      requires Valid()
      modifies this`slot, this`terminals, pages
      ensures Valid()
      ensures forall i :: 0 <= i < NUM_TERM ==> terminals[i] == Saved(0, 0, 0, false) && Painted(Pages()[i])
    {
      for i := 0 to NUM_TERM
        invariant Valid()
        invariant forall j :: 0 <= j < i ==> terminals[j] == Saved(0, 0, 0, false) && Painted(Pages()[j])
      {
        hide Painted;
        terminals := terminals[i := Saved(0, 0, 0, false)];
        MapTermVid(i);
        PaintAttributes();
      }
    }

    /** init_terminals up to the start of the first shell: three coloured pages with the cursor at
        the origin and no pending keys; terminal 0 is on the screen. */
    method InitTerminals()
      requires Valid()
      modifies this`slot, this`bufferIndex, this`curTerm, this`terminals, vga, vga.video, pages
      ensures Valid() && curTerm == 0
      ensures forall i :: 0 <= i < NUM_TERM ==> StartsAtOrigin(State().terms[i])
    {
      ClearTerminals();
      hide Painted;
      bufferIndex := terminals[0].index;
      curTerm := 0;
      terminals := terminals[0 := terminals[0].(inUse := true)];
      var _ := TerminalRestore(0);
      ghost var h := Now();
      CopyPage(vga.video, pages[slot]);
      assert Now() == h;
    }

    /** Colours every cell of the mapped page. */
    method PaintAttributes()
      requires Valid()
      modifies pages[slot]
      ensures Valid() && Painted(Pages()[slot]) && Pages() == old(Pages())[slot := Pages()[slot]]
    {
      for k := 0 to CELLS
        invariant forall j :: 0 <= j < 2 * k && j % 2 == 1 ==> pages[slot][j] == ATTRIB
      {
        pages[slot][2 * k + 1] := ATTRIB;
      }
    }

    method MapTermVid(id: int)
      requires Valid() && 0 <= id < NUM_TERM
      modifies this`slot
      ensures Valid() && slot == id && Now() == old(Now())
    {
      slot := id;
    }

    /** Copies a page of 4096 bytes. */
    method CopyPage(dest: array<byte>, src: array<byte>)
      requires dest.Length == VIDEO_SIZE && src.Length == VIDEO_SIZE && dest != src
      modifies dest
      ensures dest[..] == src[..]
    {
      for k := 0 to VIDEO_SIZE
        invariant dest[..k] == src[..k]
      {
        dest[k] := src[k];
      }
      assert dest[..] == dest[..VIDEO_SIZE] && src[..] == src[..VIDEO_SIZE];
    }

    method TerminalRestore(id: int) returns (ret: int)
      requires Valid() && id >= 0
      modifies this`slot, this`bufferIndex, vga, vga.video
      ensures Valid()
      ensures id >= NUM_TERM ==> ret == -1 && Now() == old(Now())
      ensures id < NUM_TERM ==> ret == 0 && slot == id && Now() == RestoredHardware(old(Now()), id)
    {
      if id >= NUM_TERM {
        return -1;
      }
      vga.screenX := terminals[id].x;
      vga.screenY := terminals[id].y;
      MapTermVid(id);
      CopyPage(vga.video, pages[slot]);
      bufferIndex := terminals[id].index;
      ret := 0;
    }

    method TerminalSave(id: int) returns (ret: int)
      requires Valid() && id >= 0
      modifies this`slot, this`terminals
      modifies if 0 <= id < NUM_TERM then {pages[id]} else {}
      ensures Valid()
      ensures id >= NUM_TERM ==> ret == -1 && Now() == old(Now())
      ensures id < NUM_TERM ==> ret == 0 && Now() == SavedHardware(old(Now()), id)
    {
      if id >= NUM_TERM {
        return -1;
      }
      terminals := terminals[id := terminals[id].(x := vga.screenX)];
      terminals := terminals[id := terminals[id].(y := vga.screenY)];
      terminals := terminals[id := terminals[id].(index := bufferIndex)];
      MapTermVid(id);
      SavePage();
      ret := 0;
    }

    /** Copies the screen to the mapped page. */
    method SavePage()
      requires HasArrays() && 0 <= slot < NUM_TERM
      modifies pages[slot]
      ensures Pages() == old(Pages())[slot := vga.video[..]]
    {
      CopyPage(pages[slot], vga.video);
    }

    method SetCurrent(id: int)
      requires Valid() && 0 <= id < NUM_TERM
      modifies this`curTerm
      ensures Valid() && Now() == old(Now()).(cur := id)
    {
      curTerm := id;
    }

    method SetInUse(id: int)
      requires Valid() && 0 <= id < NUM_TERM
      modifies this`terminals
      ensures Valid() && Now() == WithInUse(old(Now()), id)
    {
      terminals := terminals[id := terminals[id].(inUse := true)];
    }

    method TerminalChange(target: int) returns (ret: int)
      requires Valid() && target >= 0
      modifies this`slot, this`bufferIndex, this`curTerm, this`terminals, vga, vga.video, pages[curTerm]
      ensures Valid() && State() == Step(old(State()), Switch(target))
      ensures ret == if target < NUM_TERM then 0 else -1
    {
      if target >= NUM_TERM {
        return -1;
      }
      hide DeskOf, SavedHardware, RestoredHardware, Now;
      SaveRestoreSwitches(Now(), target);
      var saveComplete := TerminalSave(curTerm);
      if saveComplete == -1 {
        return -1;
      }
      var restoreComplete := TerminalRestore(target);
      if restoreComplete == -1 {
        return -1;
      }
      SetCurrent(target);
      MapTermVid(target);
      ret := 0;
    }

    /** terminal_launch up to the start of the new shell. */
    method TerminalLaunch(target: int) returns (ret: int)
      requires Valid() && target >= 0
      modifies this`slot, this`bufferIndex, this`curTerm, this`terminals, vga, vga.video, pages[curTerm]
      ensures Valid() && State() == Step(old(State()), Switch(target))
      ensures ret == if target < NUM_TERM then 0 else -1
    {
      if target == curTerm {
        return 0;
      }
      if target >= NUM_TERM || curTerm >= NUM_TERM {
        return -1;
      }
      hide DeskOf, SavedHardware, RestoredHardware, WithInUse, Now;
      SaveRestoreSwitches(Now(), target);
      var saveComplete := TerminalSave(curTerm);
      if saveComplete == -1 {
        return -1;
      }
      SetInUse(target);
      SetCurrent(target);
      var _ := TerminalRestore(target);
      ret := 0;
    }

    method TerminalLoS(target: int) returns (ret: int)
      requires Valid() && target >= 0
      modifies this`slot, this`bufferIndex, this`curTerm, this`terminals, vga, vga.video, pages[curTerm]
      ensures Valid() && State() == Step(old(State()), Switch(target))
      ensures ret == if target < NUM_TERM then 0 else -1
    {
      if target >= NUM_TERM {
        return -1;
      }
      if target == curTerm {
        return 0;
      }
      if terminals[target].inUse {
        ret := TerminalChange(target);
      } else {
        ret := TerminalLaunch(target);
      }
    }

    /** keyboard_read, from the moment an Enter has occurred. */
    method KeyboardRead(buf: array<byte>, nbytes: int) returns (n: int)
      requires Valid() && nbytes <= buf.Length
      requires buf != vga.video && buf !in buffKeyPtr && buf !in pages
      modifies buf
      ensures Valid() && State() == old(State())
      ensures var keys := State().terms[curTerm].keys;
              var stored := StoredKeys(keys, nbytes);
              && n == ReadResult(keys, nbytes) && |stored| <= buf.Length
              && buf[..|stored|] == stored && buf[|stored|..] == old(buf[|stored|..])
    {
      ghost var h := Now();
      assert State().terms[curTerm].keys == buffKeyPtr[curTerm][..];
      hide DeskOf;
      n := CopyKeys(buffKeyPtr[curTerm], buf, nbytes);
      assert Now() == h;
    }

    /** The loop of keyboard_read. */
    method CopyKeys(key: array<byte>, buf: array<byte>, nbytes: int) returns (n: int)
      requires key.Length == NUM_KEYS && nbytes <= buf.Length && buf != key
      modifies buf
      ensures var stored := StoredKeys(key[..], nbytes);
              && n == ReadResult(key[..], nbytes) && |stored| <= buf.Length
              && buf[..|stored|] == stored && buf[|stored|..] == old(buf[|stored|..])
    {
      var i := 0;
      while i < NUM_KEYS
        invariant 0 <= i <= NUM_KEYS && (i > 0 ==> i <= nbytes) && key[..] == old(key[..])
        invariant NUL !in key[..i]
        invariant i <= buf.Length && buf[..i] == key[..i] && buf[i..] == old(buf[i..])
      {
        if i >= nbytes {
          CopiedIs(key[..], nbytes, i);
          return i;
        }
        ghost var rest := old(buf[i..]);
        assert rest[1..] == old(buf[i + 1..]);
        buf[i] := key[i];
        ExtendSlice(key[..], 0, i);
        assert buf[..i + 1] == key[..i + 1] && buf[i + 1..] == rest[1..];
        if key[i] == NUL {
          CopiedIs(key[..], nbytes, i);
          return i;
        }
        i := i + 1;
      }
      CopiedIs(key[..], nbytes, NUM_KEYS);
      n := 0;
    }

    /** One store into a key buffer. */
    method StoreKey(t: int, k: int, c: byte)
      requires Valid() && 0 <= t < NUM_TERM && 0 <= k < NUM_KEYS
      modifies buffKeyPtr[t]
      ensures Valid()
      ensures var keys: seq<byte> := old(Now()).keys[t];
              Now() == old(Now()).(keys := old(Now()).keys[t := keys[k := c]])
    {
      buffKeyPtr[t][k] := c;
      assert Keys() == old(Keys())[t := buffKeyPtr[t][..]];
    }

    method SetIndex(index: int)
      requires Valid() && 0 <= index <= NUM_KEYS
      modifies this`bufferIndex
      ensures Valid() && Now() == old(Now()).(index := index)
    {
      bufferIndex := index;
    }

    /** putc on the screen of this console */
    method Print(c: byte)
      requires Valid()
      modifies vga, vga.video
      ensures Valid() && Now() == old(Now()).(screen := Put(old(Now()).screen, c))
    {
      vga.Putc(c);
    }

    method PressOtherKey(key: byte)
      requires Valid() && key != NUL
      modifies this`bufferIndex, vga, vga.video, buffKeyPtr[curTerm]
      ensures Valid() && State() == Step(old(State()), To(Key(key)))
    {
      hide DeskOf, Put;
      assert Now().index == bufferIndex && Now().cur == curTerm;
      hide Now;
      DispatchedIsStep(Now(), Key(key));
      if bufferIndex != NUM_KEYS {
        StoreKey(curTerm, bufferIndex, key);
        SetIndex(bufferIndex + 1);
        Print(key);
      }
    }

    method PressBackspace()
      requires Valid()
      modifies this`bufferIndex, vga, vga.video, buffKeyPtr[curTerm]
      ensures Valid() && State() == Step(old(State()), To(Backspace))
    {
      hide DeskOf, Back;
      assert Now().index == bufferIndex && Now().cur == curTerm;
      hide Now;
      DispatchedIsStep(Now(), Backspace);
      if bufferIndex > 0 {
        StoreKey(curTerm, bufferIndex - 1, NUL);
        SetIndex(bufferIndex - 1);
        EraseBack();
      }
    }

    /** The screen part of press_bskp. */
    method EraseBack()
      requires Valid()
      modifies vga, vga.video
      ensures Valid() && Now() == old(Now()).(screen := Back(old(Now()).screen))
    {
      vga.EraseBack();
    }

    /** The NUL goes to index 128 when the buffer is full: into the buffer behind, if there is one. */
    method PressEnter()
      requires Valid()
      modifies this`bufferIndex, this`overrun, vga, vga.video, buffKeyPtr
      ensures Valid() && State() == Step(old(State()), To(Enter))
      ensures overrun == (old(overrun) || Overruns(old(State()), To(Enter)))
    {
      assert Overruns(State(), To(Enter)) <==> bufferIndex == NUM_KEYS;
      hide DeskOf, Put, Overruns;
      DispatchedIsStep(Now(), Enter);
      EndLine();
      SetIndex(0);
      Print(NEWLINE);
    }

    /** The store of press_enter. */
    method EndLine()
      requires Valid()
      modifies this`overrun, buffKeyPtr
      ensures Valid() && Now() == LineEnded(old(Now())) && overrun == (old(overrun) || bufferIndex == NUM_KEYS)
    {
      if bufferIndex < NUM_KEYS {
        StoreKey(curTerm, bufferIndex, NUL);
      } else {
        SetOverrun();
        if behind[curTerm] >= 0 {
          StoreKey(behind[curTerm], 0, NUL);
        }
      }
    }

    method SetOverrun()
      requires Valid()
      modifies this`overrun
      ensures Valid() && Now() == old(Now()) && overrun
    {
      overrun := true;
    }

    method PressClear()
      requires Valid()
      modifies this`bufferIndex, vga, vga.video
      ensures Valid() && State() == Step(old(State()), To(ClearScreen))
    {
      hide DeskOf, Blanked;
      DispatchedIsStep(Now(), ClearScreen);
      vga.Clear();
      bufferIndex := 0;
      vga.screenY := 0;
      vga.screenX := 0;
    }

    method Putc(c: byte)
      requires Valid()
      modifies vga, vga.video
      ensures Valid() && State() == Step(old(State()), To(Output(c)))
    {
      hide DeskOf, Put;
      DispatchedIsStep(Now(), Output(c));
      Print(c);
    }

    /** One input, as keyboard_int_handler and the write system call dispatch it. */
    method Dispatch(i: Input)
      requires Valid() && Deliverable(i)
      modifies this, vga, vga.video, buffKeyPtr, pages
      ensures Valid() && State() == Step(old(State()), i)
      ensures overrun == (old(overrun) || Overruns(old(State()), i))
    {
      hide DeskOf, Step;
      match i
      case To(Key(c)) => PressOtherKey(c);
      case To(Backspace) => PressBackspace();
      case To(Enter) => PressEnter();
      case To(ClearScreen) => PressClear();
      case To(Output(c)) => Putc(c);
      case Switch(target) => var _ := TerminalLoS(target);
    }

    /** Any run of inputs: the shared hardware behaves like the three terminals of the desk, and a
        key is stored behind its buffer exactly when an Enter finds 128 keys pending. */
    method Serve(ins: seq<Input>)
      requires Valid() && forall k :: 0 <= k < |ins| ==> Deliverable(ins[k])
      modifies this, vga, vga.video, buffKeyPtr, pages
      ensures Valid() && State() == Run(old(State()), ins)
      ensures overrun == (old(overrun) || IsOverrun(old(State()), ins))
    {
      hide Run, Step, IsOverrun, Overruns, DeskOf, IsHardware;
      ghost var d := State();
      NothingRun(d);
      assert ins[..0] == [];
      for k := 0 to |ins|
        invariant Valid() && State() == Run(d, ins[..k])
        invariant overrun == (old(overrun) || IsOverrun(d, ins[..k]))
      {
        assert ins[..k + 1] == ins[..k] + [ins[k]];
        RunMore(d, ins[..k], ins[k]);
        OverrunMore(d, ins[..k], ins[k]);
        Dispatch(ins[k]);
      }
      assert ins[..|ins|] == ins;
    }
  }
}
