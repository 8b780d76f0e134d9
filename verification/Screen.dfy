/** The text screen: putc, move_screen_up and clear (chapOS/student-distrib/lib.c) as a window onto
    an unbounded page. */
module Screen {
  import opened Bytes
  import opened Sizes

  const COLS := 80
  const ROWS := 25
  const CELLS := ROWS * COLS
  const ATTRIB: byte := 2

  // ------------------------------------------------------------- unbounded page

  /** A page is the list of its rows; the cursor stands behind the last one. */
  type Page = seq<seq<byte>>

  predicate IsBreak(c: byte) {
    c == NEWLINE || c == RETURN
  }

  /** Where the first logical line of a text ends. */
  function BreakAt(text: seq<byte>): (k: nat)
    ensures k <= |text|
    ensures forall i :: 0 <= i < k ==> !IsBreak(text[i])
    ensures k < |text| ==> IsBreak(text[k])
  {
    if text == [] || IsBreak(text[0]) then 0 else 1 + BreakAt(text[1..])
  }

  /** A logical line as rows of at most 79 characters and full rows of 80 before them. */
  function Wrap(line: seq<byte>): (r: Page)
    ensures r != []
    ensures forall i :: 0 <= i < |r| - 1 ==> |r[i]| == COLS
    ensures |r[|r| - 1]| < COLS
    decreases |line|
  {
    if |line| < COLS then [line] else [line[..COLS]] + Wrap(line[COLS..])
  }

  /** The page that a text fills: every line starts a row, long lines are wrapped. */
  function Layout(text: seq<byte>): (r: Page)
    ensures r != []
    ensures forall i :: 0 <= i < |r| ==> |r[i]| <= COLS
    ensures |r[|r| - 1]| < COLS
    decreases |text|
  {
    var k := BreakAt(text);
    if k == |text| then Wrap(text) else Wrap(text[..k]) + Layout(text[k + 1..])
  }

  /** One more character on a page. */
  function PutPage(page: Page, c: byte): (r: Page)
    requires page != []
  {
    var last := |page| - 1;
    if IsBreak(c) then page + [[]]
    else if |page[last]| + 1 < COLS then page[..last] + [page[last] + [c]]
    else page[..last] + [page[last] + [c], []]
  }

  lemma {:induction false} WrapMore(line: seq<byte>, c: byte)
    requires !IsBreak(c)
    ensures Wrap(line + [c]) == PutPage(Wrap(line), c)
    decreases |line|
  {
    var more := line + [c];
    if |line| >= COLS {
      assert more[..COLS] == line[..COLS] && more[COLS..] == line[COLS..] + [c];
      WrapMore(line[COLS..], c);
      PutPageBehind([line[..COLS]], Wrap(line[COLS..]), c);
    } else if |more| == COLS {
      assert more[..COLS] == more && more[COLS..] == [];
    }
  }

  lemma {:induction false} PutPageBehind(before: Page, page: Page, c: byte)
    requires page != []
    ensures PutPage(before + page, c) == before + PutPage(page, c)
  {
    var all, last := before + page, |page| - 1;
    assert all[|all| - 1] == page[last];
    assert all[..|all| - 1] == before + page[..last];
  }

  lemma {:induction false} BreakAtMore(text: seq<byte>, c: byte)
    ensures BreakAt(text + [c]) == if BreakAt(text) < |text| || IsBreak(c) then BreakAt(text) else |text| + 1
  {
    if text != [] && !IsBreak(text[0]) {
      assert (text + [c])[1..] == text[1..] + [c];
      BreakAtMore(text[1..], c);
    } else if text == [] {
      assert BreakAt([c]) == if IsBreak(c) then 0 else 1 + BreakAt([c][1..]);
    }
  }

  /** Printing one more character extends the layout in the way one character extends a page. */
  lemma {:induction false} LayoutMore(text: seq<byte>, c: byte)
    ensures Layout(text + [c]) == PutPage(Layout(text), c)
    decreases |text|
  {
    hide PutPage;
    var k, more := BreakAt(text), text + [c];
    BreakAtMore(text, c);
    if k < |text| {
      assert more[..k] == text[..k] && more[k + 1..] == text[k + 1..] + [c];
      LayoutMore(text[k + 1..], c);
      FirstLineFirst(text);
      FirstLineFirst(more);
      hide Layout, Wrap;
      PutPageBehind(Wrap(text[..k]), Layout(text[k + 1..]), c);
    } else {
      LastLineMore(text, c);
    }
  }

  lemma {:induction false} FirstLineFirst(text: seq<byte>)
    requires BreakAt(text) < |text|
    ensures Layout(text) == Wrap(text[..BreakAt(text)]) + Layout(text[BreakAt(text) + 1..])
  {
  }

  lemma {:induction false} LastLineMore(text: seq<byte>, c: byte)
    requires BreakAt(text) == |text| && BreakAt(text + [c]) == if IsBreak(c) then |text| else |text| + 1
    ensures Layout(text + [c]) == PutPage(Layout(text), c)
  {
    var more := text + [c];
    if IsBreak(c) {
      assert more[..|text|] == text && more[|text| + 1..] == [];
      assert Layout([]) == [[]];
    } else {
      WrapMore(text, c);
    }
  }

  /** A text without a break fills rows of 80 characters; the last one may be empty. */
  lemma {:induction false} LayoutRows(text: seq<byte>, r: nat)
    requires BreakAt(text) == |text| && r <= |text| / 80
    ensures |Layout(text)| == |text| / 80 + 1
    ensures Layout(text)[r] == text[80 * r..if r < |text| / 80 then 80 * (r + 1) else |text|]
    decreases |text|
  {
    WrapRows(text, r);
  }

  lemma {:induction false} WrapRows(line: seq<byte>, r: nat)
    requires r <= |line| / 80
    ensures |Wrap(line)| == |line| / 80 + 1
    ensures Wrap(line)[r] == line[80 * r..if r < |line| / 80 then 80 * (r + 1) else |line|]
    decreases |line|
  {
    if |line| >= 80 {
      var rest := line[80..];
      assert Wrap(line) == [line[..80]] + Wrap(rest);
      hide Wrap;
      assert |rest| / 80 == |line| / 80 - 1;
      WrapRows(rest, if r > 0 then r - 1 else 0);
      if r > 0 {
        var end := if r < |line| / 80 then 80 * (r + 1) else |line|;
        SliceOfSlice(line, 80, |line|, 80 * (r - 1), end - 80);
        assert line[80..|line|] == rest;
      }
    }
  }

  /** A newline or a carriage return starts a row: what is behind it is laid out on its own. */
  lemma {:induction false} LayoutBreak(a: seq<byte>, c: byte, b: seq<byte>)
    requires c == 10 || c == 13
    ensures Layout(a + [c] + b) == Layout(a) + Layout(b)
    decreases |a|
  {
    hide Layout, Wrap, BreakAt;
    var text, k := a + [c] + b, BreakAt(a);
    BreakInSum(a, c, b);
    SumSlices(a, c, b, k);
    FirstLineFirst(text);
    if k < |a| {
      FirstLineFirst(a);
      LayoutBreak(a[k + 1..], c, b);
      AppendAssoc(Wrap(a[..k]), Layout(a[k + 1..]), Layout(b));
    } else {
      OneLineLayout(a);
      assert a[..k] == a;
    }
  }

  lemma {:induction false} BreakInSum(a: seq<byte>, c: byte, b: seq<byte>)
    requires IsBreak(c)
    ensures 0 <= BreakAt(a + [c] + b) == BreakAt(a) <= |a|
  {
    BreakAtIs(a + [c] + b, BreakAt(a));
  }

  lemma {:induction false} SumSlices<T>(a: seq<T>, c: T, b: seq<T>, k: nat)
    requires k <= |a|
    ensures (a + [c] + b)[..k] == a[..k]
    ensures (a + [c] + b)[k + 1..] == if k < |a| then a[k + 1..] + [c] + b else b
  {
  }

  lemma {:induction false} OneLineLayout(text: seq<byte>)
    requires BreakAt(text) == |text|
    ensures Layout(text) == Wrap(text)
  {
  }

  lemma {:induction false} BreakAtIs(text: seq<byte>, k: nat)
    requires k < |text| && IsBreak(text[k]) && forall i :: 0 <= i < k ==> !IsBreak(text[i])
    ensures BreakAt(text) == k
  {
  }

  // ------------------------------------------------------------- the screen

  /** Video memory (one page of 4096 bytes, two bytes a cell) and the cursor. */
  datatype Screen = Screen(video: seq<byte>, x: int, y: int)

  function Scrolled(video: seq<byte>): (r: seq<byte>)
    requires |video| == VIDEO_SIZE
    ensures |r| == VIDEO_SIZE
  {
    seq(VIDEO_SIZE, i requires 0 <= i < VIDEO_SIZE =>
      if i >= 2 * CELLS then video[i]
      else if i % 2 == 1 then ATTRIB
      else if i < 2 * (CELLS - COLS) then video[i + 2 * COLS]
      else SPACE)
  }

  function Poked(video: seq<byte>, cell: nat, c: byte): (r: seq<byte>)
    requires |video| == VIDEO_SIZE && cell < CELLS
    ensures |r| == VIDEO_SIZE
  {
    video[2 * cell := c][2 * cell + 1 := ATTRIB]
  }

  predicate OnScreen(s: Screen)
  {
    |s.video| == VIDEO_SIZE && 0 <= s.x < COLS && 0 <= s.y < ROWS
  }

  /** What putc does to video memory and cursor. */
  function Put(s: Screen, c: byte): (r: Screen)
    requires OnScreen(s)
    ensures OnScreen(r)
  {
    if IsBreak(c) then
      if s.y < ROWS - 1 then Screen(s.video, 0, s.y + 1) else Screen(Scrolled(s.video), 0, s.y)
    else
      var video := Poked(s.video, COLS * s.y + s.x, c);
      if s.x + 1 < COLS then Screen(video, s.x + 1, s.y)
      else if s.y < ROWS - 1 then Screen(video, 0, s.y + 1)
      else Screen(Scrolled(video), 0, s.y)
  }

  function PutAll(s: Screen, text: seq<byte>): (r: Screen)
    requires OnScreen(s)
    ensures OnScreen(r)
  {
    if text == [] then s else Put(PutAll(s, text[..|text| - 1]), text[|text| - 1])
  }

  /** The character of a page at a row and column; a page is blank where nothing was written. */
  function Glyph(page: Page, row: int, col: int): byte
  {
    if 0 <= row < |page| && 0 <= col < |page[row]| then page[row][col] else SPACE
  }

  ghost predicate IsPage(page: Page)
  {
    page != [] && (forall i :: 0 <= i < |page| ==> |page[i]| <= COLS) && |page[|page| - 1]| < COLS
  }

  /** The screen is the window of 25 rows that starts at row top of the page. */
  ghost predicate Shows(s: Screen, page: Page, top: int)
  {
    && OnScreen(s) && IsPage(page) && 0 <= top
    && s.x == |page[|page| - 1]| && s.y == |page| - 1 - top
    && (forall y, x :: 0 <= y < ROWS && 0 <= x < COLS ==> CellShows(s.video, page, top, y, x))
  }

  predicate CellShows(video: seq<byte>, page: Page, top: int, y: int, x: int)
    requires |video| == VIDEO_SIZE && 0 <= y < ROWS && 0 <= x < COLS
  {
    CellIs(video, y, x, Glyph(page, top + y, x))
  }

  predicate CellIs(video: seq<byte>, y: int, x: int, c: byte)
    requires |video| == VIDEO_SIZE && 0 <= y < ROWS && 0 <= x < COLS
  {
    video[2 * (COLS * y + x)] == c && video[2 * (COLS * y + x) + 1] == ATTRIB
  }

  /** What stands in a cell of the screen: the character of the page, or a blank, both in colour 2. */
  lemma {:induction false} ShownCell(s: Screen, page: Page, top: int, y: int, x: int)
    requires Shows(s, page, top) && 0 <= y < 25 && 0 <= x < 80
    ensures s.video[160 * y + 2 * x] == if top + y < |page| && x < |page[top + y]| then page[top + y][x] else 32
    ensures s.video[160 * y + 2 * x + 1] == 2
  {
    assert CellShows(s.video, page, top, y, x);
  }

  /** The window follows the cursor downwards. */
  function NextTop(page: Page, top: int): int
  {
    if |page| - 1 - top >= ROWS then top + 1 else top
  }

  lemma {:induction false} ScrolledCell(video: seq<byte>, y: int, x: int, c: byte)
    requires |video| == VIDEO_SIZE && 0 <= y < ROWS && 0 <= x < COLS
    requires if y < ROWS - 1 then CellIs(video, y + 1, x, c) else c == SPACE
    ensures CellIs(Scrolled(video), y, x, c)
  {
    var i := 2 * (COLS * y + x);
    assert i % 2 == 0 && (i + 1) % 2 == 1;
  }

  lemma {:induction false} PokedCell(video: seq<byte>, y: int, x: int, c: byte, y': int, x': int, d: byte)
    requires |video| == VIDEO_SIZE && 0 <= y < ROWS && 0 <= x < COLS && 0 <= y' < ROWS && 0 <= x' < COLS
    requires if (y, x) == (y', x') then d == c else CellIs(video, y', x', d)
    ensures CellIs(Poked(video, COLS * y + x, c), y', x', d)
  {
    if (y, x) != (y', x') {
      assert COLS * y + x != COLS * y' + x';
    }
  }

  /** putc on the screen is one more character on the page, seen through the window. */
  lemma {:induction false} PutRefinesPage(s: Screen, page: Page, top: int, c: byte)
    requires Shows(s, page, top)
    ensures Shows(Put(s, c), PutPage(page, c), NextTop(PutPage(page, c), top))
  {
    var page', s' := PutPage(page, c), Put(s, c);
    forall y, x | 0 <= y < ROWS && 0 <= x < COLS
      ensures CellShows(s'.video, page', NextTop(page', top), y, x)
    {
      PutCell(s, page, top, c, y, x);
    }
  }

  lemma {:induction false} PutGlyph(page: Page, c: byte, row: int, col: int)
    requires IsPage(page) && 0 <= col < COLS
    ensures Glyph(PutPage(page, c), row, col)
            == if !IsBreak(c) && row == |page| - 1 && col == |page[row]| then c else Glyph(page, row, col)
  {
  }

  lemma {:induction false} PutCell(s: Screen, page: Page, top: int, c: byte, y: int, x: int)
    requires Shows(s, page, top) && 0 <= y < ROWS && 0 <= x < COLS
    ensures CellShows(Put(s, c).video, PutPage(page, c), NextTop(PutPage(page, c), top), y, x)
  {
    hide CellIs, Scrolled, Poked;
    var page' := PutPage(page, c);
    var scrolls := NextTop(page', top) != top;
    var y0 := if scrolls then y + 1 else y;
    var video := if IsBreak(c) then s.video else Poked(s.video, COLS * s.y + s.x, c);
    var d := Glyph(page', top + y0, x);
    PutGlyph(page, c, top + y0, x);
    if y0 < ROWS {
      assert CellShows(s.video, page, top, y0, x);
      if !IsBreak(c) {
        PokedCell(s.video, s.y, s.x, c, y0, x, d);
      }
    }
    if scrolls {
      ScrolledCell(video, y, x, d);
    }
  }

  /** A blank page on a cleared screen. */
  predicate IsCleared(s: Screen)
  {
    && OnScreen(s) && s.x == 0 && s.y == 0
    && forall y, x :: 0 <= y < ROWS && 0 <= x < COLS ==> CellShows(s.video, [[]], 0, y, x)
  }

  /** How many rows of a page are above a window that ends at its last row. */
  function Above(page: Page): int
  {
    if |page| > ROWS then |page| - ROWS else 0
  }

  lemma {:induction false} ClearedShowsBlankPage(s: Screen)
    requires IsCleared(s)
    ensures Layout([]) == [[]] && Above(Layout([])) == 0 && Shows(s, Layout([]), 0)
  {
    assert Layout([]) == [[]];
  }

  lemma {:induction false} LayoutStep(s: Screen, text: seq<byte>, c: byte)
    requires Shows(s, Layout(text), Above(Layout(text)))
    ensures Shows(Put(s, c), Layout(text + [c]), Above(Layout(text + [c])))
  {
    hide Put, Shows, Layout;
    PutRefinesPage(s, Layout(text), Above(Layout(text)), c);
    LayoutMore(text, c);
  }

  /** From a cleared screen on, the screen shows the last 25 rows of the layout of everything
      that was printed, and the cursor stands behind it. */
  lemma {:induction false} PutAllShowsLayout(s: Screen, text: seq<byte>)
    requires IsCleared(s)
    ensures Shows(PutAll(s, text), Layout(text), Above(Layout(text)))
  {
    hide Put, Shows, CellShows, Layout, Above;
    if text == [] {
      ClearedShowsBlankPage(s);
    } else {
      var before, c := text[..|text| - 1], text[|text| - 1];
      PutAllShowsLayout(s, before);
      LayoutStep(PutAll(s, before), before, c);
      assert before + [c] == text;
    }
  }

  /** What stands in each cell after a text was printed on a cleared screen. */
  lemma {:induction false} PrintedCell(s: Screen, text: seq<byte>, y: int, x: int)
    requires IsCleared(s) && 0 <= y < 25 && 0 <= x < 80
    ensures var rows := Layout(text);
            var row := if |rows| > 25 then |rows| - 25 + y else y;
            PutAll(s, text).video[160 * y + 2 * x]
            == if row < |rows| && x < |rows[row]| then rows[row][x] else 32
  {
    hide Shows, PutAll, Layout, CellShows;
    PutAllShowsLayout(s, text);
    ShownCell(PutAll(s, text), Layout(text), Above(Layout(text)), y, x);
  }

  // ------------------------------------------------------------- backspace

  /** The page before its last character was typed. */
  function PopPage(page: Page): (r: Page)
    requires CanPop(page)
  {
    var last := |page| - 1;
    if page[last] != [] then page[..last] + [page[last][..|page[last]| - 1]]
    else page[..last - 1] + [page[last - 1][..COLS - 1]]
  }

  predicate CanPop(page: Page)
  {
    page != [] && (page[|page| - 1] != [] || (|page| > 1 && |page[|page| - 2]| == COLS))
  }

  /** The character that the last key put on the page. */
  function LastChar(page: Page): byte
    requires CanPop(page)
  {
    var last := |page| - 1;
    if page[last] != [] then page[last][|page[last]| - 1] else page[last - 1][COLS - 1]
  }

  lemma {:induction false} PopPut(page: Page, c: byte)
    requires IsPage(page) && !IsBreak(c)
    ensures CanPop(PutPage(page, c)) && PopPage(PutPage(page, c)) == page && LastChar(PutPage(page, c)) == c
  {
    var put, last := PutPage(page, c), |page| - 1;
    assert put[last] == page[last] + [c];
    assert put[..last] == page[..last];
    assert (page[last] + [c])[..|page[last]|] == page[last];
    assert page == page[..last] + [page[last]];
  }

  /** What a backspace does to video memory and cursor. */
  function Back(s: Screen): (r: Screen)
    requires OnScreen(s)
    ensures OnScreen(r)
  {
    var video := if s.y > 1 || s.x > 0 then Poked(s.video, COLS * s.y + s.x - 1, SPACE) else s.video;
    if s.x != 0 then Screen(video, s.x - 1, s.y)
    else if s.y > 0 then Screen(video, COLS - 1, s.y - 1)
    else Screen(video, COLS - 1, s.y)
  }

  /** Where a backspace leaves the cursor, and the one cell that it blanks: the cell before the cursor,
      which may end the row above.  At the start of row 1 it blanks none; at the origin the cursor goes
      to the end of row 0. */
  lemma {:induction false} BackBlanks(s: Screen, i: int)
    requires OnScreen(s) && 0 <= i < 4096
    ensures (Back(s).x, Back(s).y)
            == if s.x > 0 then (s.x - 1, s.y) else if s.y > 0 then (79, s.y - 1) else (79, 0)
    ensures var at := if s.x > 0 || s.y > 1 then 160 * s.y + 2 * s.x - 2 else -2;
            Back(s).video[i] == if i == at then 32 else if i == at + 1 then 2 else s.video[i]
  {
  }

  /** Bytes 4000 to 4095 of the page are behind the last cell; nothing that is printed, taken back or
      cleared changes them. */
  lemma {:induction false} RestIsSpared(s: Screen, text: seq<byte>, i: int)
    requires OnScreen(s) && 4000 <= i < 4096
    ensures PutAll(s, text).video[i] == Back(s).video[i] == Blanked(s.video)[i] == s.video[i]
  {
    BackBlanks(s, i);
    if text != [] {
      var before := PutAll(s, text[..|text| - 1]);
      RestIsSpared(s, text[..|text| - 1], i);
    }
  }

  lemma {:induction false} PopGlyph(page: Page, row: int, col: int)
    requires IsPage(page) && CanPop(page) && 0 <= col < COLS
    ensures IsPage(PopPage(page))
    ensures var popped := PopPage(page);
            Glyph(popped, row, col)
            == if row == |popped| - 1 && col == |popped[row]| then SPACE else Glyph(page, row, col)
  {
  }

  lemma {:induction false} BackCell(s: Screen, page: Page, top: int, y: int, x: int)
    requires Shows(s, page, top) && CanPop(page) && 0 <= y < ROWS && 0 <= x < COLS
    requires s.x > 0 || s.y > 1 || (s.y == 1 && LastChar(page) == SPACE)
    ensures CellShows(Back(s).video, PopPage(page), top, y, x)
  {
    hide Poked, CellIs, PopPage, LastChar;
    PopGlyph(page, top + y, x);
    assert CellShows(s.video, page, top, y, x);
    BackGlyph(s, page, top, y, x);
    if s.y > 1 || s.x > 0 {
      var (y0, x0) := if s.x > 0 then (s.y, s.x - 1) else (s.y - 1, COLS - 1);
      assert COLS * y0 + x0 == COLS * s.y + s.x - 1;
      PokedCell(s.video, y0, x0, SPACE, y, x, Glyph(PopPage(page), top + y, x));
    }
  }

  /** The cell that a backspace empties is the one behind the popped page. */
  lemma {:induction false} BackGlyph(s: Screen, page: Page, top: int, y: int, x: int)
    requires Shows(s, page, top) && CanPop(page) && 0 <= y < ROWS && 0 <= x < COLS
    ensures var (y0, x0) := if s.x > 0 then (s.y, s.x - 1) else (s.y - 1, COLS - 1);
            Glyph(PopPage(page), top + y, x) == if (y, x) == (y0, x0) then SPACE else Glyph(page, top + y, x)
    ensures s.x == 0 && s.y > 0 ==> Glyph(page, top + s.y - 1, COLS - 1) == LastChar(page)
  {
    hide CellIs;
    PopGlyph(page, top + y, x);
  }

  /** A backspace on the screen takes the last character off the page exactly when the cursor is
      not at the start of row 0 or 1.  At the start of row 1 the cursor moves but the character
      stays, which shows unless it is a blank. */
  lemma {:induction false} BackRefinesPage(s: Screen, page: Page, top: int)
    requires Shows(s, page, top) && CanPop(page)
    ensures Shows(Back(s), PopPage(page), top) <==> s.x > 0 || s.y > 1 || (s.y == 1 && LastChar(page) == SPACE)
  {
    PopGlyph(page, |page| - 2, COLS - 1);
    if s.x > 0 || s.y > 1 || (s.y == 1 && LastChar(page) == SPACE) {
      forall y, x | 0 <= y < ROWS && 0 <= x < COLS
        ensures CellShows(Back(s).video, PopPage(page), top, y, x)
      {
        BackCell(s, page, top, y, x);
      }
    } else if s.y == 1 {
      assert CellShows(s.video, page, top, 0, COLS - 1);
      assert !CellShows(Back(s).video, PopPage(page), top, 0, COLS - 1);
    }
  }

  /** Typing a character and erasing it is the identity on the page, whether the character wraps
      to the next row or scrolls the window; only a character other than a blank that is typed at
      the end of screen row 0 stays behind. */
  lemma {:induction false} TypeThenErase(s: Screen, page: Page, top: int, c: byte)
    requires Shows(s, page, top) && !IsBreak(c)
    ensures Shows(Back(Put(s, c)), page, NextTop(PutPage(page, c), top))
            <==> !(s.x == COLS - 1 && s.y == 0) || c == SPACE
    ensures Back(Put(s, c)).x == s.x && Back(Put(s, c)).y == |page| - 1 - NextTop(PutPage(page, c), top)
  {
    PutRefinesPage(s, page, top, c);
    PopPut(page, c);
    BackRefinesPage(Put(s, c), PutPage(page, c), NextTop(PutPage(page, c), top));
  }

  // ------------------------------------------------------------- the driver

  /** The part of video memory that clear writes. */
  function Blanked(video: seq<byte>): (r: seq<byte>)
    requires |video| == VIDEO_SIZE
    ensures |r| == VIDEO_SIZE
  {
    seq(VIDEO_SIZE, i requires 0 <= i < VIDEO_SIZE =>
      if i >= 2 * CELLS then video[i] else if i % 2 == 1 then ATTRIB else SPACE)
  }

  /** clear with the cursor at the origin gives the blank page. */
  lemma {:induction false} BlankedIsCleared(video: seq<byte>)
    requires |video| == VIDEO_SIZE
    ensures IsCleared(Screen(Blanked(video), 0, 0))
  {
    forall y, x | 0 <= y < ROWS && 0 <= x < COLS
      ensures CellShows(Blanked(video), [[]], 0, y, x)
    {
      var i := 2 * (COLS * y + x);
      assert i % 2 == 0 && (i + 1) % 2 == 1 && i + 1 < 2 * CELLS;
    }
  }

  class Vga {
    const video: array<byte>
    var screenX: int
    var screenY: int

    ghost predicate Valid()
      reads this, video
    {
      video.Length == VIDEO_SIZE && OnScreen(Now())
    }

    ghost function Now(): Screen
      reads this, video
    {
      Screen(video[..], screenX, screenY)
    }

    constructor ()
      ensures Valid() && fresh(video) && screenX == 0 && screenY == 0
    {
      video := new byte[VIDEO_SIZE](_ => 0);
      screenX, screenY := 0, 0;
    }

    method Clear()
      requires Valid()
      modifies video
      ensures Valid() && Now() == Screen(Blanked(old(video[..])), screenX, screenY)
    {
      for i := 0 to CELLS
        invariant forall k :: 0 <= k < 2 * i ==> video[k] == Blanked(old(video[..]))[k]
        invariant forall k :: 2 * i <= k < VIDEO_SIZE ==> video[k] == old(video[k])
      {
        video[2 * i] := SPACE;
        video[2 * i + 1] := ATTRIB;
      }
      assert video[..] == Blanked(old(video[..]));
    }

    /** Moves row y up by one. */
    method CopyRowUp(y: int)
      requires video.Length == VIDEO_SIZE && 1 <= y < ROWS
      modifies video
      ensures forall k :: 2 * COLS * (y - 1) <= k < 2 * COLS * y ==>
                video[k] == if k % 2 == 1 then ATTRIB else old(video[k + 2 * COLS])
      ensures forall k :: 0 <= k < VIDEO_SIZE && !(2 * COLS * (y - 1) <= k < 2 * COLS * y) ==> video[k] == old(video[k])
    {
      for x := 0 to COLS
        invariant forall k :: 2 * COLS * (y - 1) <= k < 2 * (COLS * (y - 1) + x) ==>
                    video[k] == if k % 2 == 1 then ATTRIB else old(video[k + 2 * COLS])
        invariant forall k :: 0 <= k < VIDEO_SIZE && !(2 * COLS * (y - 1) <= k < 2 * (COLS * (y - 1) + x)) ==>
                    video[k] == old(video[k])
      {
        var cell := COLS * (y - 1) + x;
        video[2 * cell] := video[2 * (COLS * y + x)];
        video[2 * cell + 1] := ATTRIB;
      }
    }

    /** Blanks the last row. */
    method BlankLastRow()
      requires video.Length == VIDEO_SIZE
      modifies video
      ensures forall k :: 2 * (CELLS - COLS) <= k < 2 * CELLS ==> video[k] == if k % 2 == 1 then ATTRIB else SPACE
      ensures forall k :: 0 <= k < VIDEO_SIZE && !(2 * (CELLS - COLS) <= k < 2 * CELLS) ==> video[k] == old(video[k])
    {
      for x := 0 to COLS
        invariant forall k :: 2 * (CELLS - COLS) <= k < 2 * (CELLS - COLS + x) ==>
                    video[k] == if k % 2 == 1 then ATTRIB else SPACE
        invariant forall k :: 0 <= k < VIDEO_SIZE && !(2 * (CELLS - COLS) <= k < 2 * (CELLS - COLS + x)) ==>
                    video[k] == old(video[k])
      {
        var cell := COLS * (ROWS - 1) + x;
        video[2 * cell] := SPACE;
        video[2 * cell + 1] := ATTRIB;
      }
    }

    method MoveScreenUp()
      requires video.Length == VIDEO_SIZE
      modifies video
      ensures video[..] == Scrolled(old(video[..]))
    {
      for y := 1 to ROWS
        invariant forall k :: 0 <= k < 2 * COLS * (y - 1) ==>
                    video[k] == if k % 2 == 1 then ATTRIB else old(video[k + 2 * COLS])
        invariant forall k :: 2 * COLS * (y - 1) <= k < VIDEO_SIZE ==> video[k] == old(video[k])
      {
        CopyRowUp(y);
      }
      BlankLastRow();
      assert video[..] == Scrolled(old(video[..]));
    }

    method Putc(c: byte)
      requires Valid()
      modifies this, video
      ensures Valid() && Now() == Put(old(Now()), c)
    {
      if c == NEWLINE || c == RETURN {
        if screenY < ROWS - 1 {
          screenY := screenY + 1;
        } else {
          MoveScreenUp();
        }
        screenX := 0;
      } else {
        var cell := COLS * screenY + screenX;
        video[2 * cell] := c;
        video[2 * cell + 1] := ATTRIB;
        assert video[..] == Poked(old(video[..]), cell, c);
        screenX := screenX + 1;
        if screenY >= ROWS - 1 && screenX >= COLS {
          MoveScreenUp();
        } else if screenX >= COLS {
          screenY := screenY + 1;
        }
        screenX := screenX % COLS;
      }
    }

    /** The screen part of a backspace. */
    method EraseBack()
      requires Valid()
      modifies this, video
      ensures Valid() && Now() == Back(old(Now()))
    {
      var x, y := screenX, screenY;
      if y > 1 || x > 0 {
        video[2 * (COLS * y + x - 1)] := SPACE;
        video[2 * (COLS * y + x - 1) + 1] := ATTRIB;
        assert video[..] == Poked(old(video[..]), COLS * y + x - 1, SPACE);
      }
      if x != 0 {
        screenX := x - 1;
      } else {
        if y > 0 {
          screenY := y - 1;
        }
        screenX := COLS - 1;
      }
    }
  }
}
