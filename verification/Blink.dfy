/** The blink list of the fish program (chapOS/fish/blink.S) and its node pool (chapOS/fish/fish.c). */
module Blink {
  import opened Arithmetic
  import opened Bytes
  import opened Sizes

  const SLOTS := 80 * 25
  const WORD := 0x1_0000
  const NIL := -1

  type word = w: int | 0 <= w < 0x1_0000

  /** A blinking character; lengths, countdown and status are 16-bit words. */
  datatype Item = Item(location: word, onChar: byte, offChar: byte, onLength: word, offLength: word,
                       countdown: word, status: word)

  /** A pool slot: an item and the index of the next node. */
  datatype Node = Node(item: Item, next: int)

  const ZERO_NODE := Node(Item(0, 0, 0, 0, 0, 0, 0), 0)

  // ------------------------------------------------------------- one tick of one item

  predicate IsOn(it: Item) {
    it.status % 2 == 1
  }

  function Shown(it: Item): byte {
    if IsOn(it) then it.onChar else it.offChar
  }

  /** decw: the 16-bit decrement. */
  function Dec(c: word): word {
    if c == 0 then WORD - 1 else c - 1
  }

  /** The countdown is not positive as a signed 16-bit word. */
  predicate Expired(c: word) {
    c == 0 || c >= 0x8000
  }

  predicate Flips(it: Item) {
    Expired(Dec(it.countdown))
  }

  function Tick(it: Item): Item
  {
    if !Flips(it) then it.(countdown := Dec(it.countdown))
    else if IsOn(it) then it.(countdown := it.offLength, status := it.status - 1)
    else it.(countdown := it.onLength, status := it.status + 1)
  }

  function TickN(it: Item, n: nat): Item
  {
    if n == 0 then it else Tick(TickN(it, n - 1))
  }

  /** For how many ticks a length lasts: as many as it says from 1 to 32768, otherwise one. */
  function Lasts(length: word): (n: int)
    ensures 1 <= n <= 0x8000
  {
    if 1 <= length <= 0x8000 then length else 1
  }

  lemma {:induction false} ModStep(n: nat, p: int)
    requires p > 0
    ensures (n + 1) % p == if n % p + 1 == p then 0 else n % p + 1
  {
    var q, r := n / p, n % p;
    assert n + 1 == q * p + (r + 1);
    if r + 1 == p {
      assert n + 1 == (q + 1) * p;
      QuotientIs(n + 1, p, q + 1, 0);
    } else {
      QuotientIs(n + 1, p, q, r + 1);
    }
  }

  /** A fresh item after n ticks: which half of its period it is in, and for how long still. */
  lemma {:induction false} Phase(it: Item, n: nat)
    requires it.status == 1 && it.countdown == it.onLength
    ensures var a, b := Lasts(it.onLength), Lasts(it.offLength);
            var r, now := n % (a + b), TickN(it, n);
            && now == it.(countdown := now.countdown, status := now.status)
            && now.status == (if r < a then 1 else 0)
            && Lasts(now.countdown) == if r < a then a - r else a + b - r
  {
    if n > 0 {
      Phase(it, n - 1);
      ModStep(n - 1, Lasts(it.onLength) + Lasts(it.offLength));
    }
  }

  /** The law that a reader of the fields expects: on for onLength ticks, off for offLength. */
  predicate AsDocumented(it: Item, n: nat)
    requires it.onLength + it.offLength > 0
  {
    IsOn(TickN(it, n)) <==> n % (it.onLength + it.offLength) < it.onLength
  }

  lemma {:induction false} SmallRest(n: nat, p: int)
    requires p > 0
    ensures n < p ==> n % p == n
    ensures n == p ==> n % p == 0
  {
    if n < p {
      QuotientIs(n, p, 0, n);
    } else if n == p {
      QuotientIs(n, p, 1, 0);
    }
  }

  /** A length outside 1..32768 shows up at the latest one tick after the item goes off. */
  lemma {:induction false} BadLengthShows(it: Item) returns (n: nat)
    requires it.status == 1 && it.countdown == it.onLength && it.onLength + it.offLength > 0
    requires !(1 <= it.onLength <= 0x8000 && 1 <= it.offLength <= 0x8000)
    ensures !AsDocumented(it, n)
  {
    var a: int, b: int := it.onLength, it.offLength;
    var p := Lasts(a) + Lasts(b);
    n := if a == 0 then 0 else if a > 0x8000 then 1 else if b == 0 then a else a + 1;
    Phase(it, n);
    SmallRest(n, p);
    SmallRest(n, a + b);
  }

  /** An item blinks as its lengths say, for ever, if and only if both lengths are from 1 to 32768. */
  lemma {:induction false} BlinksAsDocumented(it: Item)
    requires it.status == 1 && it.countdown == it.onLength && it.onLength + it.offLength > 0
    ensures (forall n: nat :: AsDocumented(it, n)) <==> 1 <= it.onLength <= 0x8000 && 1 <= it.offLength <= 0x8000
  {
    if 1 <= it.onLength <= 0x8000 && 1 <= it.offLength <= 0x8000 {
      forall n: nat
        ensures AsDocumented(it, n)
      {
        Phase(it, n);
      }
    } else {
      var n := BadLengthShows(it);
    }
  }

  // ------------------------------------------------------------- the list and the screen

  /** The items in list order, newest first, and the video memory they are drawn on. */
  datatype Board = Board(items: seq<Item>, video: seq<byte>)

  predicate IsBoard(b: Board)
  {
    |b.video| == VIDEO_SIZE && forall i :: 0 <= i < |b.items| ==> 0 < b.items[i].location < SLOTS
  }

  function Poked(video: seq<byte>, location: int, c: byte): (r: seq<byte>)
    requires |video| == VIDEO_SIZE && 0 <= location < SLOTS
    ensures |r| == VIDEO_SIZE
  {
    video[2 * location := c]
  }

  /** The index of the newest item at a location. */
  function Find(items: seq<Item>, location: word): (k: nat)
    ensures k <= |items|
    ensures k < |items| ==> items[k].location == location
    ensures forall i :: 0 <= i < k ==> items[i].location != location
  {
    if items == [] || items[0].location == location then 0 else 1 + Find(items[1..], location)
  }

  function Fresh(it: Item): Item {
    it.(status := 1, countdown := it.onLength)
  }

  function Added(b: Board, it: Item): (r: Board)
    requires IsBoard(b)
    ensures it.location > 0 ==> IsBoard(r)
  {
    if it.location >= SLOTS || |b.items| == SLOTS then b
    else Board([Fresh(it)] + b.items, Poked(b.video, it.location, it.onChar))
  }

  /** A sequence without its element k. */
  function Without<T>(s: seq<T>, k: nat): (r: seq<T>)
    requires k < |s|
    ensures |r| == |s| - 1
    ensures forall i :: 0 <= i < |r| ==> r[i] == if i < k then s[i] else s[i + 1]
  {
    seq(|s| - 1, i requires 0 <= i < |s| - 1 => if i < k then s[i] else s[i + 1])
  }

  lemma {:induction false} WithoutSlices<T>(s: seq<T>, k: nat)
    requires k < |s|
    ensures Without(s, k) == s[..k] + s[k + 1..]
  {
  }

  function Removed(b: Board, location: word): (r: Board)
    requires IsBoard(b)
    ensures IsBoard(r)
  {
    var k := Find(b.items, location);
    if k == |b.items| then b else b.(items := Without(b.items, k))
  }

  function Copied(from: Item, to: Item): Item {
    to.(onLength := from.onLength, offLength := from.offLength, countdown := from.countdown, status := from.status)
  }

  function Synced(b: Board, source: word, target: word): (r: Board)
    requires IsBoard(b)
    ensures IsBoard(r)
  {
    var s, t := Find(b.items, source), Find(b.items, target);
    if s == |b.items| || t == |b.items| then b
    else Board(b.items[t := Copied(b.items[s], b.items[t])], Poked(b.video, target, b.items[t].offChar))
  }

  /** A tick visits the items from the newest to the oldest and draws those that flip. */
  function TickedItems(items: seq<Item>): (r: seq<Item>)
    ensures |r| == |items|
    ensures forall i :: 0 <= i < |items| ==> r[i] == Tick(items[i])
  {
    seq(|items|, i requires 0 <= i < |items| => Tick(items[i]))
  }

  function TickedVideo(items: seq<Item>, video: seq<byte>): (r: seq<byte>)
    requires IsBoard(Board(items, video))
    ensures |r| == VIDEO_SIZE
  {
    if items == [] then video
    else
      var last := items[|items| - 1];
      var before := TickedVideo(items[..|items| - 1], video);
      if Flips(last) then Poked(before, last.location, Shown(Tick(last))) else before
  }

  function Ticked(b: Board): (r: Board)
    requires IsBoard(b)
    ensures IsBoard(r)
  {
    Board(TickedItems(b.items), TickedVideo(b.items, b.video))
  }

  datatype Event = Add(it: Item) | Remove(location: word) | Sync(source: word, target: word) | Tock

  predicate IsEvent(e: Event) {
    e.Add? ==> e.it.location > 0
  }

  predicate AreEvents(es: seq<Event>) {
    forall i :: 0 <= i < |es| ==> IsEvent(es[i])
  }

  function Step(b: Board, e: Event): (r: Board)
    requires IsBoard(b) && IsEvent(e)
    ensures IsBoard(r)
  {
    match e
    case Add(it) => Added(b, it)
    case Remove(location) => Removed(b, location)
    case Sync(source, target) => Synced(b, source, target)
    case Tock => Ticked(b)
  }

  function Run(b: Board, es: seq<Event>): (r: Board)
    requires IsBoard(b) && AreEvents(es)
    ensures IsBoard(r)
  {
    if es == [] then b else Step(Run(b, es[..|es| - 1]), es[|es| - 1])
  }

  // ------------------------------------------------------------- one location over whole runs

  /** The items at one location, newest first. */
  function At(items: seq<Item>, location: word): (r: seq<Item>)
    ensures forall i :: 0 <= i < |r| ==> r[i].location == location
  {
    if items == [] then []
    else (if items[0].location == location then [items[0]] else []) + At(items[1..], location)
  }

  lemma {:induction false} AtConcat(a: seq<Item>, b: seq<Item>, location: word)
    ensures At(a + b, location) == At(a, location) + At(b, location)
  {
    if a == [] {
      assert a + b == b;
    } else {
      assert (a + b)[1..] == a[1..] + b;
      AtConcat(a[1..], b, location);
    }
  }

  lemma {:induction false} AtNone(items: seq<Item>, location: word)
    requires forall i :: 0 <= i < |items| ==> items[i].location != location
    ensures At(items, location) == []
  {
    if items != [] {
      AtNone(items[1..], location);
    }
  }

  lemma {:induction false} AtOne(it: Item, location: word)
    ensures At([it], location) == if it.location == location then [it] else []
  {
    assert At([it][1..], location) == [];
  }

  /** Splits the items at the one with index k. */
  lemma {:induction false} AtSplit(items: seq<Item>, k: nat, location: word)
    requires k < |items|
    ensures At(items, location) == At(items[..k], location) + At([items[k]], location) + At(items[k + 1..], location)
  {
    assert items == items[..k] + ([items[k]] + items[k + 1..]);
    AtConcat(items[..k], [items[k]] + items[k + 1..], location);
    AtConcat([items[k]], items[k + 1..], location);
  }

  /** Add is cons, Remove takes the newest, Find returns the newest. */
  lemma {:induction false} NewestFirst(b: Board, location: word)
    requires IsBoard(b)
    ensures forall it: Item :: 0 < it.location < SLOTS && |b.items| < SLOTS && it.location == location ==>
              At(Added(b, it).items, location) == [Fresh(it)] + At(b.items, location)
    ensures var k, here := Find(b.items, location), At(b.items, location);
            if here == [] then k == |b.items| && Removed(b, location) == b
            else k < |b.items| && b.items[k] == here[0] && At(Removed(b, location).items, location) == here[1..]
  {
    hide At;
    var k := Find(b.items, location);
    forall it: Item | 0 < it.location < SLOTS && |b.items| < SLOTS && it.location == location
      ensures At(Added(b, it).items, location) == [Fresh(it)] + At(b.items, location)
    {
      AtConcat([Fresh(it)], b.items, location);
      AtOne(Fresh(it), location);
    }
    if k < |b.items| {
      WithoutSlices(b.items, k);
      AtSplit(b.items, k, location);
      AtNone(b.items[..k], location);
      AtConcat(b.items[..k], b.items[k + 1..], location);
      AtOne(b.items[k], location);
    } else {
      AtNone(b.items, location);
    }
  }

  lemma {:induction false} AtTicked(items: seq<Item>, location: word)
    ensures At(TickedItems(items), location) == TickedItems(At(items, location))
  {
    if items != [] {
      var ticked := TickedItems(items);
      assert ticked[1..] == TickedItems(items[1..]);
      AtTicked(items[1..], location);
    }
  }

  /** An event leaves the items at a location alone, except that it may tick them. */
  predicate Spares(e: Event, location: word)
  {
    match e
    case Add(it) => it.location != location
    case Remove(l) => l != location
    case Sync(source, target) => target != location
    case Tock => true
  }

  lemma {:induction false} AtUnchanged(items: seq<Item>, k: nat, it: Item, location: word)
    requires k < |items| && items[k].location == it.location != location
    ensures At(items[k := it], location) == At(items, location)
  {
    var items' := items[k := it];
    AtSplit(items, k, location);
    AtSplit(items', k, location);
    assert items'[..k] == items[..k] && items'[k + 1..] == items[k + 1..];
  }

  predicate AllSpare(es: seq<Event>, location: word) {
    forall i :: 0 <= i < |es| ==> Spares(es[i], location)
  }

  lemma {:induction false} SparedItems(b: Board, e: Event, location: word)
    requires IsBoard(b) && IsEvent(e) && Spares(e, location)
    ensures At(Step(b, e).items, location)
            == if e.Tock? then TickedItems(At(b.items, location)) else At(b.items, location)
  {
    match e
    case Add(it) =>
      assert ([Fresh(it)] + b.items)[1..] == b.items;
    case Remove(l) =>
      var k := Find(b.items, l);
      if k < |b.items| {
        WithoutSlices(b.items, k);
        AtSplit(b.items, k, location);
        AtConcat(b.items[..k], b.items[k + 1..], location);
      }
    case Sync(source, target) =>
      var s, t := Find(b.items, source), Find(b.items, target);
      if s < |b.items| && t < |b.items| {
        AtUnchanged(b.items, t, Copied(b.items[s], b.items[t]), location);
      }
    case Tock =>
      AtTicked(b.items, location);
  }

  /** A tick leaves the cell of a location alone when no item there changes. */
  lemma {:induction false} TickedCellKept(items: seq<Item>, video: seq<byte>, location: word)
    requires IsBoard(Board(items, video)) && location < SLOTS
    requires forall it: Item :: it in At(items, location) ==> !Flips(it)
    ensures TickedVideo(items, video)[2 * location] == video[2 * location]
  {
    if items != [] {
      var last := |items| - 1;
      AtLast(items, location);
      TickedCellKept(items[..last], video, location);
    }
  }

  /** Otherwise the cell shows the oldest item there that changes, because it is drawn last. */
  lemma {:induction false} TickedCellOldest(items: seq<Item>, video: seq<byte>, location: word, k: nat)
    requires IsBoard(Board(items, video)) && location < SLOTS && k < |At(items, location)|
    requires Flips(At(items, location)[k])
    requires forall j :: k < j < |At(items, location)| ==> !Flips(At(items, location)[j])
    ensures TickedVideo(items, video)[2 * location] == Shown(Tick(At(items, location)[k]))
  {
    if items != [] {
      var last := |items| - 1;
      AtLast(items, location);
      hide At;
      var here, front := At(items, location), At(items[..last], location);
      assert forall j :: 0 <= j < |front| ==> here[j] == front[j];
      if items[last].location == location && Flips(items[last]) {
        assert here[|front|] == items[last] && k == |front|;
      } else {
        assert items[last].location == location ==> here[|front|] == items[last] && k < |front|;
        TickedCellOldest(items[..last], video, location, k);
      }
    }
  }

  lemma {:induction false} AtLast(items: seq<Item>, location: word)
    requires items != []
    ensures var last := |items| - 1;
            At(items, location) == At(items[..last], location)
                                   + (if items[last].location == location then [items[last]] else [])
  {
    var last := |items| - 1;
    assert items == items[..last] + [items[last]];
    AtConcat(items[..last], [items[last]], location);
    AtOne(items[last], location);
  }

  /** The bytes of video memory that an event may draw: the character of the added or synced item, or
      those of items that change at a tick. */
  predicate Draws(b: Board, e: Event, j: int)
  {
    match e
    case Add(it) => j == 2 * it.location
    case Remove(location) => false
    case Sync(source, target) => j == 2 * target
    case Tock => exists i :: 0 <= i < |b.items| && Flips(b.items[i]) && j == 2 * b.items[i].location
  }

  /** Every other byte stays: all colours, all cells without a changing item, and what lies behind the
      2000 cells. */
  lemma {:induction false} OtherBytesStay(b: Board, e: Event, j: int)
    requires IsBoard(b) && IsEvent(e) && 0 <= j < 4096 && !Draws(b, e, j)
    ensures Step(b, e).video[j] == b.video[j]
  {
    if e.Tock? {
      TickedElsewhere(b.items, b.video, j);
    }
  }

  lemma {:induction false} TickedElsewhere(items: seq<Item>, video: seq<byte>, j: int)
    requires IsBoard(Board(items, video)) && 0 <= j < 4096
    requires forall i :: 0 <= i < |items| && Flips(items[i]) ==> j != 2 * items[i].location
    ensures TickedVideo(items, video)[j] == video[j]
  {
    if items != [] {
      TickedElsewhere(items[..|items| - 1], video, j);
    }
  }

  /** An add that is accepted draws the on character and puts the item in front; any other changes
      nothing: locations from 2000 on, or 2000 items listed. */
  lemma {:induction false} AddDrawsOn(b: Board, it: Item)
    requires IsBoard(b) && it.location > 0 && |b.items| <= 2000
    ensures var r := Step(b, Add(it));
            if it.location < 2000 && |b.items| < 2000
            then && r.items == [it.(status := 1, countdown := it.onLength)] + b.items
                 && r.video[2 * it.location] == it.onChar
            else r == b
  {
  }

  /** The cell of a location after a tick, when one item has it for itself. */
  lemma {:induction false} TickedCell(items: seq<Item>, video: seq<byte>, location: word)
    requires IsBoard(Board(items, video)) && location < SLOTS && |At(items, location)| <= 1
    ensures TickedVideo(items, video)[2 * location]
            == var here := At(items, location);
               if here != [] && Flips(here[0]) then Shown(Tick(here[0])) else video[2 * location]
  {
    if items != [] {
      var k := |items| - 1;
      AtSplit(items, k, location);
      assert items[k + 1..] == [];
      AtOne(items[k], location);
      TickedCell(items[..k], video, location);
    }
  }

  /** The item has the location for itself and its cell shows its current character. */
  ghost predicate Displays(b: Board, it: Item)
  {
    && IsBoard(b) && it.location < SLOTS
    && At(b.items, it.location) == [it] && b.video[2 * it.location] == Shown(it)
  }

  lemma {:induction false} SparedDisplay(b: Board, e: Event, it: Item)
    requires Displays(b, it) && IsEvent(e) && Spares(e, it.location)
    ensures Displays(Step(b, e), if e.Tock? then Tick(it) else it)
  {
    hide At, TickedVideo;
    SparedItems(b, e, it.location);
    match e
    case Add(other) =>
    case Remove(l) =>
    case Sync(source, target) =>
    case Tock =>
      TickedCell(b.items, b.video, it.location);
  }

  function Tocks(es: seq<Event>): nat
  {
    if es == [] then 0 else Tocks(es[..|es| - 1]) + if es[|es| - 1].Tock? then 1 else 0
  }

  /** Over every run that does not add, remove or sync at its location, an item is ticked as often
      as the clock, and its cell shows the character that goes with its status. */
  lemma {:induction false} DisplayOverRun(b: Board, it: Item, es: seq<Event>)
    requires Displays(b, it)
    requires AreEvents(es) && AllSpare(es, it.location)
    ensures Displays(Run(b, es), TickN(it, Tocks(es)))
  {
    assert IsBoard(b);
    hide Step, Displays, Tick, Spares;
    if es != [] {
      var before := es[..|es| - 1];
      DisplayOverRun(b, it, before);
      TickKeepsLocation(it, Tocks(before));
      SparedDisplay(Run(b, before), es[|es| - 1], TickN(it, Tocks(before)));
    }
  }

  lemma {:induction false} TickKeepsLocation(it: Item, n: nat)
    ensures TickN(it, n).location == it.location
  {
    if n > 0 {
      TickKeepsLocation(it, n - 1);
    }
  }

  lemma {:induction false} AddedDisplays(b: Board, it: Item)
    requires IsBoard(b) && |b.items| < SLOTS && 0 < it.location < SLOTS && At(b.items, it.location) == []
    ensures Displays(Added(b, it), Fresh(it))
  {
    NewestFirst(b, it.location);
  }

  /** Whether an item is in the first part of its period n ticks after it was added. */
  predicate OnAfter(it: Item, n: nat) {
    n % (Lasts(it.onLength) + Lasts(it.offLength)) < Lasts(it.onLength)
  }

  lemma {:induction false} FreshAfter(it: Item, n: nat)
    ensures var now := TickN(Fresh(it), n);
            && IsOn(now) == OnAfter(it, n) && now.location == it.location
            && Shown(now) == if OnAfter(it, n) then it.onChar else it.offChar
  {
    Phase(Fresh(it), n);
  }

  /** The life of an item after its add: its character on the screen follows its period. */
  lemma {:induction false} AddedItemBlinks(b: Board, it: Item, es: seq<Event>)
    requires IsBoard(b) && |b.items| < SLOTS && 0 < it.location < SLOTS && At(b.items, it.location) == []
    requires AreEvents(es) && AllSpare(es, it.location)
    ensures var r, on := Run(Added(b, it), es), OnAfter(it, Tocks(es));
            && |At(r.items, it.location)| == 1 && IsOn(At(r.items, it.location)[0]) == on
            && r.video[2 * it.location] == if on then it.onChar else it.offChar
  {
    AddedDisplays(b, it);
    hide Run, Added, At, AllSpare, AreEvents, OnAfter, TickN, Tocks, Shown, IsOn;
    DisplayOverRun(Added(b, it), Fresh(it), es);
    FreshAfter(it, Tocks(es));
  }

  /** A sync copies the newest item at the source over the newest at the target and leaves all
      others.  The target's cell shows the off character then, which goes with the copied status
      exactly when that is off or both characters are the same. */
  lemma {:induction false} SyncDrawsOff(b: Board, source: word, target: word)
    requires IsBoard(b) && target < SLOTS && At(b.items, source) != [] && At(b.items, target) != []
    ensures var r, from, to := Synced(b, source, target), At(b.items, source), At(b.items, target);
            var t := Copied(from[0], to[0]);
            && At(r.items, target) == [t] + to[1..]
            && (source != target ==> At(r.items, source) == from)
            && r.video[2 * target] == to[0].offChar
            && (r.video[2 * target] == Shown(t) <==> !IsOn(from[0]) || to[0].onChar == to[0].offChar)
  {
    hide At;
    NewestFirst(b, source);
    NewestFirst(b, target);
    if source != target {
      SparedItems(b, Sync(source, target), source);
    }
    var k := Find(b.items, target);
    assert forall i :: 0 <= i < k ==> b.items[..k][i].location != target;
    AtNone(b.items[..k], target);
    AtReplaced(b.items, k, Copied(At(b.items, source)[0], At(b.items, target)[0]));
  }

  /** Changing the newest item at a location leaves the older ones. */
  lemma {:induction false} AtReplaced(items: seq<Item>, k: nat, it: Item)
    requires k < |items| && items[k].location == it.location && At(items[..k], it.location) == []
    ensures At(items, it.location) != []
    ensures At(items[k := it], it.location) == [it] + At(items, it.location)[1..]
  {
    hide At;
    var items' := items[k := it];
    AtSplit(items, k, it.location);
    AtSplit(items', k, it.location);
    assert items'[..k] == items[..k] && items'[k + 1..] == items[k + 1..];
    AtOne(items[k], it.location);
    AtOne(it, it.location);
  }

  /** Two items with the same lengths, status and countdown keep them, however often they tick. */
  predicate InStep(a: Item, b: Item) {
    a.onLength == b.onLength && a.offLength == b.offLength && a.status == b.status && a.countdown == b.countdown
  }

  lemma {:induction false} StaysInStep(a: Item, b: Item, n: nat)
    requires InStep(a, b)
    ensures InStep(TickN(a, n), TickN(b, n))
  {
    if n > 0 {
      StaysInStep(a, b, n - 1);
    }
  }

  /** Items after n ticks. */
  function AfterTicks(items: seq<Item>, n: nat): (r: seq<Item>)
    ensures |r| == |items| && forall i :: 0 <= i < |items| ==> r[i] == TickN(items[i], n)
  {
    seq(|items|, i requires 0 <= i < |items| => TickN(items[i], n))
  }

  /** Over every run that does not add, remove or sync at a location, each item there is ticked as
      often as the clock, and none comes or goes. */
  lemma {:induction false} ItemsOverRun(b: Board, location: word, es: seq<Event>)
    requires IsBoard(b) && AreEvents(es) && AllSpare(es, location)
    ensures At(Run(b, es).items, location) == AfterTicks(At(b.items, location), Tocks(es))
  {
    hide Step, Tick, Spares, IsEvent;
    if es != [] {
      var before := es[..|es| - 1];
      ItemsOverRun(b, location, before);
      SparedItems(Run(b, before), es[|es| - 1], location);
    }
  }

  /** After a sync, the newest items at source and target have the same status and countdown for the
      rest of any run that spares both locations, whatever else is there. */
  lemma {:induction false} SyncedStayTogether(b: Board, source: word, target: word, es: seq<Event>)
    requires IsBoard(b) && target < SLOTS && At(b.items, source) != [] && At(b.items, target) != []
    requires AreEvents(es) && AllSpare(es, source) && AllSpare(es, target)
    ensures var r := Run(Synced(b, source, target), es);
            var from, to := At(r.items, source), At(r.items, target);
            && |from| == |At(b.items, source)| && |to| == |At(b.items, target)|
            && from[0] == TickN(At(b.items, source)[0], Tocks(es)) && InStep(from[0], to[0])
            && to[1..] == AfterTicks(At(b.items, target)[1..], Tocks(es))
  {
    hide Run, AllSpare, AreEvents, Synced, At, Find;
    SyncDrawsOff(b, source, target);
    var r, from, to := Synced(b, source, target), At(b.items, source), At(b.items, target);
    ItemsOverRun(r, source, es);
    ItemsOverRun(r, target, es);
    StaysInStep(from[0], Copied(from[0], to[0]), Tocks(es));
  }

  // ------------------------------------------------------------- the node pool

  /** The k-th node of a list given by slot indices, or NIL behind the last. */
  function Ref(list: seq<int>, k: int): int
    requires 0 <= k <= |list|
  {
    if k < |list| then list[k] else NIL
  }

  ghost predicate IsListed(list: seq<int>, p: int)
  {
    p in list
  }

  ghost predicate IsLinked(nodes: seq<Node>, list: seq<int>, k: int)
    requires 0 <= k < |list| && 0 <= list[k] < |nodes|
  {
    nodes[list[k]].next == Ref(list, k + 1)
  }

  ghost predicate InRange(list: seq<int>)
  {
    forall k :: 0 <= k < |list| ==> 0 <= list[k] < SLOTS
  }

  ghost predicate Distinct(list: seq<int>)
  {
    forall j, k :: 0 <= j < k < |list| ==> list[j] != list[k]
  }

  ghost predicate AllLinked(nodes: seq<Node>, list: seq<int>)
    requires |nodes| == SLOTS && InRange(list)
  {
    forall k :: 0 <= k < |list| ==> IsLinked(nodes, list, k)
  }

  ghost predicate AllOccupied(nodes: seq<Node>, list: seq<int>)
    requires |nodes| == SLOTS
  {
    forall p :: 0 <= p < SLOTS ==> (nodes[p].item.location != 0 <==> IsListed(list, p))
  }

  /** The nodes that start at head are the slots of list, each once, and these are exactly the
      slots with a location other than 0. */
  ghost predicate IsChain(nodes: seq<Node>, head: int, list: seq<int>)
  {
    && |nodes| == SLOTS && head == Ref(list, 0)
    && InRange(list) && Distinct(list) && AllLinked(nodes, list) && AllOccupied(nodes, list)
  }

  ghost predicate IsWellFormed(nodes: seq<Node>, head: int)
  {
    exists list :: IsChain(nodes, head, list)
  }

  ghost function ItemsOf(nodes: seq<Node>, list: seq<int>): (r: seq<Item>)
    requires |nodes| == SLOTS && InRange(list)
    ensures |r| == |list| && forall k :: 0 <= k < |list| ==> r[k] == nodes[list[k]].item
  {
    seq(|list|, k requires 0 <= k < |list| => nodes[list[k]].item)
  }

  /** The first slot with location 0, as mp1_malloc finds it. */
  function FirstFree(nodes: seq<Node>): (p: int)
    ensures p == NIL || 0 <= p < |nodes|
    ensures p == NIL ==> forall i :: 0 <= i < |nodes| ==> nodes[i].item.location != 0
    ensures p != NIL ==> nodes[p].item.location == 0 && forall i :: 0 <= i < p ==> nodes[i].item.location != 0
  {
    if nodes == [] then NIL
    else if nodes[0].item.location == 0 then 0
    else
      var p := FirstFree(nodes[1..]);
      if p == NIL then NIL else p + 1
  }

  /** The pool after an add that found a free slot. */
  function WithNode(nodes: seq<Node>, head: int, it: Item): (r: (seq<Node>, int))
    requires FirstFree(nodes) != NIL
  {
    (nodes[FirstFree(nodes) := Node(Fresh(it), head)], FirstFree(nodes))
  }

  /** An add keeps the list well formed exactly when its location is not 0: the allocator takes
      location 0 for a free slot. */
  lemma {:induction false} AddKeepsListExactly(nodes: seq<Node>, head: int, it: Item)
    requires IsWellFormed(nodes, head) && FirstFree(nodes) != NIL
    ensures var (nodes', head') := WithNode(nodes, head, it);
            IsWellFormed(nodes', head') <==> it.location != 0
  {
    var p := FirstFree(nodes);
    var (nodes', head') := WithNode(nodes, head, it);
    var list :| IsChain(nodes, head, list);
    if it.location != 0 {
      ChainAdd(nodes, head, list, it);
    } else {
      forall l
        ensures !IsChain(nodes', head', l)
      {
        assert head' == p != NIL;
        assert l != [] && l[0] == p ==> IsListed(l, p);
      }
    }
  }

  lemma {:induction false} LinksCons(nodes: seq<Node>, head: int, list: seq<int>, p: int, node: Node)
    requires IsChain(nodes, head, list) && 0 <= p < SLOTS && !IsListed(list, p) && node.next == head
    ensures InRange([p] + list) && AllLinked(nodes[p := node], [p] + list)
  {
    var list', nodes' := [p] + list, nodes[p := node];
    assert InRange(list');
    hide InRange, AllOccupied, Distinct;
    forall k | 0 <= k < |list'|
      ensures IsLinked(nodes', list', k)
    {
      if k > 0 {
        assert IsLinked(nodes, list, k - 1);
        assert IsListed(list, list[k - 1]);
      }
    }
  }

  lemma {:induction false} DistinctCons(list: seq<int>, p: int)
    requires Distinct(list) && !IsListed(list, p)
    ensures Distinct([p] + list)
    ensures forall q :: IsListed([p] + list, q) <==> q == p || IsListed(list, q)
  {
    assert forall k :: 0 <= k < |list| ==> IsListed(list, list[k]);
  }

  /** A free slot becomes the first node. */
  lemma {:induction false} ChainCons(nodes: seq<Node>, head: int, list: seq<int>, p: int, node: Node)
    requires IsChain(nodes, head, list) && 0 <= p < SLOTS && nodes[p].item.location == 0
    requires node.item.location != 0 && node.next == head
    ensures IsChain(nodes[p := node], p, [p] + list)
  {
    hide IsListed, AllLinked, InRange, Distinct;
    LinksCons(nodes, head, list, p, node);
    DistinctCons(list, p);
  }

  lemma {:induction false} ChainAdd(nodes: seq<Node>, head: int, list: seq<int>, it: Item)
    requires IsChain(nodes, head, list) && FirstFree(nodes) != NIL && it.location != 0
    ensures var (nodes', head') := WithNode(nodes, head, it);
            && IsChain(nodes', head', [FirstFree(nodes)] + list)
            && ItemsOf(nodes', [FirstFree(nodes)] + list) == [Fresh(it)] + ItemsOf(nodes, list)
  {
    hide FirstFree, IsLinked, Ref;
    var p := FirstFree(nodes);
    var nodes' := WithNode(nodes, head, it).0;
    ChainCons(nodes, head, list, p, Node(Fresh(it), head));
    var list', left, right := [p] + list, ItemsOf(nodes', [p] + list), [Fresh(it)] + ItemsOf(nodes, list);
    forall k | 0 <= k < |list'|
      ensures left[k] == right[k]
    {
      if k > 0 {
        assert IsListed(list, list[k - 1]) && list'[k] == list[k - 1];
      }
    }
  }

  lemma {:induction false} FreeAgain(nodes: seq<Node>, head: int, zero: Item)
    requires FirstFree(nodes) != NIL && zero.location == 0
    ensures FirstFree(WithNode(nodes, head, zero).0) == FirstFree(nodes)
  {
    var nodes', p := WithNode(nodes, head, zero).0, FirstFree(nodes);
    assert nodes'[p].item.location == 0;
    assert forall i :: 0 <= i < p ==> nodes'[i] == nodes[i];
    assert FirstFree(nodes') != NIL;
  }

  /** A second add after one at location 0 reuses its slot, which then points to itself. */
  lemma {:induction false} AddAtZeroLoops(nodes: seq<Node>, head: int, zero: Item, it: Item)
    requires FirstFree(nodes) != NIL && zero.location == 0
    ensures var (nodes', head') := WithNode(nodes, head, zero);
            FirstFree(nodes') != NIL &&
            var (nodes'', head'') := WithNode(nodes', head', it);
            head'' == head' && nodes''[head''].next == head''
  {
    FreeAgain(nodes, head, zero);
  }

  /** The pool after the k-th node was unlinked and its slot cleared. */
  ghost predicate IsUnlinked(nodes: seq<Node>, list: seq<int>, k: nat, unlinked: seq<Node>)
    requires |nodes| == SLOTS && k < |list| && 0 <= list[k] < SLOTS
  {
    && |unlinked| == SLOTS
    && forall p :: 0 <= p < SLOTS ==>
         unlinked[p] == if p == list[k] then ZERO_NODE
                        else if k > 0 && p == list[k - 1] then Node(nodes[p].item, nodes[list[k]].next) else nodes[p]
  }

  lemma {:induction false} LinksWithoutOne(nodes: seq<Node>, head: int, list: seq<int>, k: nat, unlinked: seq<Node>)
    requires IsChain(nodes, head, list) && k < |list| && IsUnlinked(nodes, list, k, unlinked)
    ensures InRange(Without(list, k)) && AllLinked(unlinked, Without(list, k))
    ensures ItemsOf(unlinked, Without(list, k)) == Without(ItemsOf(nodes, list), k)
  {
    hide AllOccupied;
    var list' := Without(list, k);
    assert InRange(list');
    forall i | 0 <= i < |list'|
      ensures IsLinked(unlinked, list', i)
      ensures ItemsOf(unlinked, list')[i] == Without(ItemsOf(nodes, list), k)[i]
    {
      assert IsLinked(nodes, list, if i < k then i else i + 1) && IsLinked(nodes, list, k);
    }
  }

  lemma {:induction false} DistinctWithoutOne(list: seq<int>, k: nat)
    requires k < |list| && Distinct(list)
    ensures Distinct(Without(list, k))
    ensures forall q :: IsListed(Without(list, k), q) <==> IsListed(list, q) && q != list[k]
  {
    var list' := Without(list, k);
    forall q | q in list && q != list[k]
      ensures q in list'
    {
      var i :| 0 <= i < |list| && list[i] == q;
      assert list'[if i < k then i else i - 1] == q;
    }
  }

  lemma {:induction false} HeadWithoutOne(nodes: seq<Node>, head: int, list: seq<int>, k: nat)
    requires IsChain(nodes, head, list) && k < |list|
    ensures (if k == 0 then nodes[list[0]].next else head) == Ref(Without(list, k), 0)
  {
    assert IsLinked(nodes, list, 0);
  }

  lemma {:induction false} OccupiedWithoutOne(nodes: seq<Node>, list: seq<int>, k: nat, unlinked: seq<Node>)
    requires |nodes| == SLOTS && k < |list| && InRange(list) && AllOccupied(nodes, list)
    requires IsUnlinked(nodes, list, k, unlinked)
    requires forall q :: IsListed(Without(list, k), q) <==> IsListed(list, q) && q != list[k]
    ensures AllOccupied(unlinked, Without(list, k))
  {
    hide IsListed;
  }

  /** Unlinking takes one node out of the list and leaves the others in order. */
  lemma {:induction false} ChainRemove(nodes: seq<Node>, head: int, list: seq<int>, k: nat, unlinked: seq<Node>)
    requires IsChain(nodes, head, list) && k < |list| && IsUnlinked(nodes, list, k, unlinked)
    ensures IsChain(unlinked, if k == 0 then nodes[list[0]].next else head, Without(list, k))
    ensures ItemsOf(unlinked, Without(list, k)) == Without(ItemsOf(nodes, list), k)
  {
    HeadWithoutOne(nodes, head, list, k);
    hide AllLinked, AllOccupied, Distinct, IsListed, Ref;
    DistinctWithoutOne(list, k);
    LinksWithoutOne(nodes, head, list, k, unlinked);
    OccupiedWithoutOne(nodes, list, k, unlinked);
  }

  /** Changing a listed item leaves the list alone, as long as its location stays. */
  lemma {:induction false} ChainUpdate(nodes: seq<Node>, head: int, list: seq<int>, k: nat, it: Item)
    requires IsChain(nodes, head, list) && k < |list| && it.location == nodes[list[k]].item.location
    ensures var nodes' := nodes[list[k] := nodes[list[k]].(item := it)];
            IsChain(nodes', head, list) && ItemsOf(nodes', list) == ItemsOf(nodes, list)[k := it]
  {
    var nodes' := nodes[list[k] := nodes[list[k]].(item := it)];
    forall i | 0 <= i < |list|
      ensures IsLinked(nodes', list, i)
    {
      assert IsLinked(nodes, list, i);
    }
    hide IsLinked, Ref;
    assert IsListed(list, list[k]);
  }

  lemma {:induction false} DistinctInRange(list: seq<int>) returns (s: set<int>)
    requires InRange(list) && Distinct(list)
    ensures |s| == |list| && forall p :: p in s <==> p in list
  {
    s := {};
    for i := 0 to |list|
      invariant |s| == i && forall p :: p in s <==> p in list[..i]
    {
      assert list[..i + 1] == list[..i] + [list[i]];
      s := s + {list[i]};
    }
    assert list[..|list|] == list;
  }

  lemma {:induction false} RangeSize(n: nat) returns (all: set<int>)
    ensures |all| == n && forall p :: p in all <==> 0 <= p < n
  {
    all := {};
    for i := 0 to n
      invariant |all| == i && forall p :: p in all <==> 0 <= p < i
    {
      all := all + {i};
    }
  }

  lemma {:induction false} SubsetSize(a: set<int>, b: set<int>)
    requires a <= b
    ensures |a| <= |b| && (|a| == |b| <==> a == b)
  {
    assert b == a + (b - a);
  }

  /** The pool is full exactly when the list has 2000 nodes. */
  lemma {:induction false} FullWhenListed(nodes: seq<Node>, head: int, list: seq<int>)
    requires IsChain(nodes, head, list)
    ensures FirstFree(nodes) == NIL <==> |list| == SLOTS
    ensures |list| <= SLOTS
  {
    hide IsLinked;
    var s := DistinctInRange(list);
    var all := RangeSize(SLOTS);
    forall q | q in s
      ensures q in all
    {
      var k :| 0 <= k < |list| && list[k] == q;
    }
    SubsetSize(s, all);
    var p := FirstFree(nodes);
    if p != NIL {
      assert p in all && !IsListed(list, p);
    } else {
      forall q | q in all
        ensures q in s
      {
        assert nodes[q].item.location != 0 && IsListed(list, q);
      }
    }
  }

  class Pool {
    const nodes: array<Node>
    const video: array<byte>
    var head: int
    ghost var list: seq<int>

    ghost predicate Valid()
      reads this, nodes, video
    {
      && nodes.Length == SLOTS && video.Length == VIDEO_SIZE
      && IsChain(nodes[..], head, list) && IsBoard(Board(ItemsOf(nodes[..], list), video[..]))
    }

    ghost function State(): Board
      requires Valid()
      reads this, nodes, video
    {
      Board(ItemsOf(nodes[..], list), video[..])
    }

    constructor ()
      ensures Valid() && fresh(nodes) && fresh(video) && State().items == []
    {
      nodes := new Node[SLOTS](_ => ZERO_NODE);
      video := new byte[VIDEO_SIZE](_ => 0);
      head, list := NIL, [];
    }

    /** mp1_malloc */
    method Malloc() returns (p: int)
      requires nodes.Length == SLOTS
      ensures p == FirstFree(nodes[..])
    {
      var i := 0;
      while i < SLOTS
        invariant 0 <= i <= SLOTS
        invariant forall j :: 0 <= j < i ==> nodes[j].item.location != 0
      {
        if nodes[i].item.location == 0 {
          FirstFreeIs(nodes[..], i);
          return i;
        }
        i := i + 1;
      }
      FirstFreeIs(nodes[..], i);
      p := NIL;
    }

    /** mp1_free */
    method Free(p: int)
      requires nodes.Length == SLOTS && 0 <= p < SLOTS
      modifies nodes
      ensures nodes[..] == old(nodes[..])[p := ZERO_NODE]
    {
      nodes[p] := ZERO_NODE;
    }

    /** mp1_find_helper: the loop ends because the list does. */
    method FindHelper(location: word) returns (p: int)
      requires Valid()
      ensures Find(State().items, location) <= |list| && p == Ref(list, Find(State().items, location))
    {
      ghost var k := 0;
      p := head;
      while p != NIL
        invariant 0 <= k <= |list| && p == Ref(list, k)
        invariant forall i :: 0 <= i < k ==> State().items[i].location != location
        decreases |list| - k
      {
        if nodes[p].item.location == location {
          FindIs(State().items, location, k);
          return;
        }
        assert IsLinked(nodes[..], list, k);
        p := nodes[p].next;
        k := k + 1;
      }
      FindIs(State().items, location, k);
    }

    method Poke(location: int, c: byte)
      requires video.Length == VIDEO_SIZE && 0 <= location < SLOTS
      modifies video
      ensures video[..] == old(video[..])[2 * location := c]
    {
      video[2 * location] := c;
    }

    /** mp1_ioctl_add */
    method Add(it: Item) returns (ret: int)
      requires Valid()
      modifies this, nodes, video
      ensures var free := FirstFree(old(nodes[..]));
              ret == if it.location < SLOTS && free != NIL then 0 else -1
      ensures ret == 0 ==> (nodes[..], head) == WithNode(old(nodes[..]), old(head), it)
      ensures ret == 0 ==> video[..] == Poked(old(video[..]), it.location, it.onChar)
      ensures ret == -1 || it.location > 0 ==> Valid() && State() == Added(old(State()), it)
      ensures ret == 0 && it.location == 0 ==> !IsWellFormed(nodes[..], head)
    {
      FullWhenListed(nodes[..], head, list);
      if it.location >= SLOTS {
        return -1;
      }
      var p := Malloc();
      if p == NIL {
        return -1;
      }
      ghost var before, head0 := nodes[..], head;
      AddKeepsListExactly(before, head, it);
      nodes[p] := Node(it.(status := 1, countdown := it.onLength), nodes[p].next);
      nodes[p] := nodes[p].(next := head);
      head := p;
      assert nodes[..] == before[p := Node(Fresh(it), head0)];
      assert (nodes[..], head) == WithNode(before, head0, it);
      Poke(it.location, it.onChar);
      if it.location > 0 {
        ChainAdd(before, head0, list, it);
        list := [p] + list;
      }
      ret := 0;
    }

    /** mp1_ioctl_remove: the location is the low half of the argument. */
    method Remove(arg: nat) returns (ret: int)
      requires Valid()
      modifies this, nodes
      ensures Valid() && State() == Removed(old(State()), arg % WORD)
      ensures ret == if Find(old(State()).items, arg % WORD) < |old(State()).items| then 0 else -1
    {
      ghost var k := Find(State().items, arg % WORD);
      var p := FindHelper(arg % WORD);
      if p == NIL {
        return -1;
      }
      Unlink(p, k);
      ret := 0;
    }

    /** Finds the predecessor of the k-th node and takes the node out of the list. */
    method Unlink(p: int, ghost k: nat)
      requires Valid() && k < |list| && p == list[k]
      modifies this, nodes
      ensures Valid()
      ensures State() == old(State()).(items := Without(old(State()).items, k))
    {
      ghost var before, head0 := nodes[..], head;
      var prev := FindPrevious(p, k);
      assert IsLinked(nodes[..], list, k);
      if prev == NIL {
        head := nodes[p].next;
      } else {
        nodes[prev] := nodes[prev].(next := nodes[p].next);
      }
      Free(p);
      ChainRemove(before, head0, list, k, nodes[..]);
      list := Without(list, k);
    }

    method FindPrevious(p: int, ghost k: nat) returns (prev: int)
      requires Valid() && k < |list| && p == list[k]
      ensures prev == if k == 0 then NIL else list[k - 1]
    {
      prev := NIL;
      var cur := head;
      ghost var j := 0;
      while cur != p
        invariant 0 <= j <= k && cur == list[j] && prev == if j == 0 then NIL else list[j - 1]
        decreases k - j
      {
        assert IsLinked(nodes[..], list, j);
        prev := cur;
        cur := nodes[cur].next;
        j := j + 1;
      }
    }

    /** mp1_ioctl_sync: the argument holds the source in its high and the target in its low half. */
    method Sync(arg: nat) returns (ret: int)
      requires Valid() && arg < WORD * WORD
      modifies nodes, video
      ensures Valid() && State() == Synced(old(State()), arg / WORD, arg % WORD)
      ensures var items := old(State()).items;
              ret == if Find(items, arg / WORD) < |items| && Find(items, arg % WORD) < |items| then 0 else -1
    {
      ghost var before := State();
      ghost var k := Find(State().items, arg % WORD);
      var s := FindHelper(arg / WORD);
      if s == NIL {
        return -1;
      }
      var t := FindHelper(arg % WORD);
      if t == NIL {
        return -1;
      }
      ChainUpdate(nodes[..], head, list, k, Copied(nodes[s].item, nodes[t].item));
      ghost var it := Copied(nodes[s].item, nodes[t].item);
      ghost var nodes0 := nodes[..];
      nodes[t] := nodes[t].(item := nodes[t].item.(onLength := nodes[s].item.onLength));
      nodes[t] := nodes[t].(item := nodes[t].item.(offLength := nodes[s].item.offLength));
      nodes[t] := nodes[t].(item := nodes[t].item.(countdown := nodes[s].item.countdown));
      nodes[t] := nodes[t].(item := nodes[t].item.(status := nodes[s].item.status));
      assert nodes[..] == nodes0[t := nodes0[t].(item := it)];
      // the conditional move never happens: testb leaves neither the sign nor the overflow flag set
      Poke(nodes[t].item.location, nodes[t].item.offChar);
      ret := 0;
    }

    /** mp1_ioctl_find */
    method FindItem(location: word) returns (ret: int, it: Item)
      requires Valid()
      ensures var items := State().items;
              var k := Find(items, location);
              if k < |items| then ret == 0 && it == items[k] else ret == -1
    {
      it := ZERO_NODE.item;
      var p := FindHelper(location);
      if p == NIL {
        return -1, it;
      }
      return 0, nodes[p].item;
    }

    /** mp1_rtc_tasklet: one pass along the list. */
    method RtcTasklet()
      requires Valid()
      modifies nodes, video
      ensures Valid() && State() == Ticked(old(State()))
    {
      ghost var items, video0 := State().items, video[..];
      ghost var j := 0;
      var p := head;
      assert TickedUpTo(items, 0) == items && items[..0] == [];
      hide TickedVideo, Tick, Flips, Poked, Shown;
      while p != NIL
        invariant 0 <= j <= |list| && p == Ref(list, j) && |items| == |list|
        invariant Valid() && IsBoard(Board(items, video0))
        invariant State() == Board(TickedUpTo(items, j), TickedVideo(items[..j], video0))
        decreases |list| - j
      {
        assert IsLinked(nodes[..], list, j);
        TickStep(items, video0, j);
        TickNode(p, j);
        assert IsLinked(nodes[..], list, j);
        p := nodes[p].next;
        j := j + 1;
      }
      assert items[..j] == items;
    }

    /** The end of a countdown: the other character is drawn and its length starts. */
    method FlipNode(p: int)
      requires nodes.Length == SLOTS && video.Length == VIDEO_SIZE
      requires 0 <= p < SLOTS && nodes[p].item.location < SLOTS
      modifies nodes, video
      ensures var it := old(nodes[p].item);
              var length := if IsOn(it) then it.offLength else it.onLength;
              var now := it.(countdown := length, status := if IsOn(it) then it.status - 1 else it.status + 1);
              && nodes[..] == old(nodes[..])[p := old(nodes[p]).(item := now)]
              && video[..] == Poked(old(video[..]), it.location, Shown(now))
    {
      var length;
      if nodes[p].item.status % 2 == 1 {
        Poke(nodes[p].item.location, nodes[p].item.offChar);
        length := nodes[p].item.offLength;
      } else {
        Poke(nodes[p].item.location, nodes[p].item.onChar);
        length := nodes[p].item.onLength;
      }
      nodes[p] := nodes[p].(item := nodes[p].item.(countdown := length));
      var status := nodes[p].item.status;
      nodes[p] := nodes[p].(item := nodes[p].item.(status := if status % 2 == 1 then status - 1 else status + 1));
    }

    /** The body of the tasklet's loop. */
    method TickNode(p: int, ghost j: nat)
      requires Valid() && j < |list| && p == list[j]
      modifies nodes, video
      ensures Valid()
      ensures var b := old(State());
              State() == Board(b.items[j := Tick(b.items[j])],
                               if Flips(b.items[j]) then Poked(b.video, b.items[j].location, Shown(Tick(b.items[j])))
                               else b.video)
    {
      ChainUpdate(nodes[..], head, list, j, Tick(nodes[p].item));
      ghost var before, it := nodes[..], nodes[p].item;
      assert it == State().items[j];
      var c := nodes[p].item.countdown;
      nodes[p] := nodes[p].(item := nodes[p].item.(countdown := if c == 0 then WORD - 1 else c - 1));
      if nodes[p].item.countdown == 0 || nodes[p].item.countdown >= 0x8000 {
        FlipNode(p);
      }
      assert nodes[..] == before[p := before[p].(item := Tick(it))];
    }
  }

  function TickedUpTo(items: seq<Item>, j: nat): (r: seq<Item>)
    requires j <= |items|
    ensures |r| == |items|
    ensures forall i :: 0 <= i < |items| ==> r[i] == if i < j then Tick(items[i]) else items[i]
  {
    seq(|items|, i requires 0 <= i < |items| => if i < j then Tick(items[i]) else items[i])
  }

  lemma {:induction false} TickStep(items: seq<Item>, video: seq<byte>, j: nat)
    requires j < |items| && IsBoard(Board(items, video))
    ensures TickedUpTo(items, j)[j] == items[j]
    ensures TickedUpTo(items, j + 1) == TickedUpTo(items, j)[j := Tick(items[j])]
    ensures var drawn := TickedVideo(items[..j], video);
            TickedVideo(items[..j + 1], video)
            == if Flips(items[j]) then Poked(drawn, items[j].location, Shown(Tick(items[j]))) else drawn
  {
    assert items[..j + 1][..j] == items[..j];
  }

  lemma {:induction false} FirstFreeIs(nodes: seq<Node>, k: nat)
    requires k <= |nodes| && forall i :: 0 <= i < k ==> nodes[i].item.location != 0
    requires k < |nodes| ==> nodes[k].item.location == 0
    ensures FirstFree(nodes) == if k < |nodes| then k else NIL
  {
    if k > 0 {
      FirstFreeIs(nodes[1..], k - 1);
    }
  }

  lemma {:induction false} FindIs(items: seq<Item>, location: word, k: nat)
    requires k <= |items| && (k < |items| ==> items[k].location == location)
    requires forall i :: 0 <= i < k ==> items[i].location != location
    ensures Find(items, location) == k
  {
    if k > 0 {
      FindIs(items[1..], location, k - 1);
    }
  }
}
