/**
  Terminals that share one screen (student-distrib/keyboard.c): switching copies the screen
  to and from backing pages, and page up and page down show older pages in its place. Only
  the characters of the cells are modelled, not their attributes.
 */
module Screens {
  import opened Machine

  const CELLS: nat := 1920
  const TERMINALS: nat := 10
  const MAX_SCROLLBACK: nat := 5

  type Page = p: seq<Byte> | |p| == CELLS witness seq(CELLS, _ => 0)

  /**
    pages[t][0] is the base page of terminal t and pages[t][k] the one k pages further up;
    shown[t] says which of them its video_memory pointer is at.
   */
  datatype Display = Display(video: Page, pages: seq<seq<Page>>, shown: seq<nat>, current: nat, scroll: nat) {
    ghost predicate Shape() {
      && |pages| == TERMINALS && |shown| == TERMINALS && current < TERMINALS
      && (forall t :: 0 <= t < TERMINALS ==> |pages[t]| == MAX_SCROLLBACK + 1 && shown[t] <= MAX_SCROLLBACK)
    }

    /** While an older page is shown or the scrollback offset is set, the screen is a copy of the page shown. */
    ghost predicate Valid() {
      && Shape() && scroll <= MAX_SCROLLBACK
      && (scroll > 0 || shown[current] > 0 ==> video == pages[current][shown[current]])
    }

    /** The offset says which page is shown, and terminals that are not visible show their base pages. */
    ghost predicate InStep()
      requires Shape()
    {
      forall t :: 0 <= t < TERMINALS ==> shown[t] == if t == current then scroll else 0
    }

    /**
      The live screen of a terminal: the video memory if the terminal is visible and no older
      page of it is shown, its base page otherwise.
     */
    function Live(t: nat): Page
      requires t < |pages| && t < |shown| && 0 < |pages[t]|
    {
      if t == current && shown[t] == 0 then video else pages[t][0]
    }
  }

  function PutPage(ps: seq<seq<Page>>, t: nat, k: nat, p: Page): (r: seq<seq<Page>>)
    requires t < |ps| && k < |ps[t]|
    ensures |r| == |ps| && (forall u :: 0 <= u < |ps| ==> |r[u]| == |ps[u]|)
  {
    var mine: seq<Page> := ps[t][k := p];
    ps[t := mine]
  }

  // ---------------------------------------------------------------- the routines

  function MapBacking(d: Display): (r: Display)
    requires d.Shape()
    ensures r.Shape()
  {
    d.(pages := PutPage(d.pages, d.current, d.shown[d.current], d.video))
  }

  function LoadScrollback(d: Display, k: nat): (r: Display)
    requires d.Shape() && k <= MAX_SCROLLBACK
    ensures r.Shape()
  {
    d.(shown := d.shown[d.current := k], video := d.pages[d.current][k])
  }

  function Clamp(n: int): nat {
    if n < 0 then 0 else if n > MAX_SCROLLBACK then MAX_SCROLLBACK else n
  }

  function Adjust(d: Display, offset: int): (r: Display)
    requires d.Shape()
    ensures r.Shape()
  {
    var d1 := if d.scroll == 0 then MapBacking(d) else d;
    var k := Clamp(offset + d.scroll);
    LoadScrollback(d1.(scroll := k), k)
  }

  function SetScrollback(d: Display, value: int): (r: Display)
    requires d.Shape()
    ensures r.Shape()
  {
    var d1 := if d.scroll == 0 then MapBacking(d) else d;
    LoadScrollback(d1.(scroll := Clamp(value)), Clamp(value))
  }

  /** What every key that edits or switches does first: the offset is cleared before the routine that looks at it. */
  function Reset(d: Display): (r: Display)
    requires d.Shape()
    ensures r.Shape()
  {
    SetScrollback(d.(scroll := 0), 0)
  }

  function SwitchTo(d: Display, t: nat): (r: Display)
    requires d.Shape() && t < TERMINALS
    ensures r.Shape()
  {
    var d1 := MapBacking(d);
    d1.(current := t, video := d1.pages[t][d1.shown[t]])
  }

  /** Alt and a function key. */
  function KeySwitch(d: Display, t: nat): (r: Display)
    requires d.Shape() && t < TERMINALS
    ensures r.Shape()
  {
    SwitchTo(Reset(d), t)
  }

  /** One character written by a process of terminal t: to the screen if it is visible, to the base page otherwise. */
  function Put(d: Display, t: nat, cell: nat, c: Byte): (r: Display)
    requires d.Shape() && t < TERMINALS && cell < CELLS
    ensures r.Shape()
  {
    if t == d.current then
      var d1 := Reset(d);
      var v: Page := d1.video[cell := c];
      d1.(video := v)
    else
      var p: Page := d.pages[t][0][cell := c];
      d.(pages := PutPage(d.pages, t, 0, p))
  }

  // ---------------------------------------------------------------- live screens survive

  /** All live screens are as they were. */
  ghost predicate SameScreens(d: Display, r: Display)
    requires d.Shape() && r.Shape()
  {
    forall t :: 0 <= t < TERMINALS ==> r.Live(t) == d.Live(t)
  }

  lemma AdjustKeeps(d: Display, offset: int)
    requires d.Valid()
    ensures Adjust(d, offset).Valid() && SameScreens(d, Adjust(d, offset))
    ensures d.InStep() ==> Adjust(d, offset).InStep()
  {
  }

  /** The reset shows the live screen, whatever was shown before. */
  lemma ResetKeeps(d: Display)
    requires d.Valid()
    ensures Reset(d).Valid() && SameScreens(d, Reset(d))
    ensures Reset(d).scroll == 0 && Reset(d).current == d.current && Reset(d).video == d.Live(d.current)
    ensures d.InStep() ==> Reset(d).InStep()
  {
  }

  /** A switch by mouse, which resets nothing. */
  lemma SwitchKeeps(d: Display, t: nat)
    requires d.Valid() && t < TERMINALS
    ensures SwitchTo(d, t).Valid() && SwitchTo(d, t).current == t && SameScreens(d, SwitchTo(d, t))
  {
  }

  lemma KeySwitchKeeps(d: Display, t: nat)
    requires d.Valid() && t < TERMINALS
    ensures KeySwitch(d, t).Valid() && KeySwitch(d, t).current == t && SameScreens(d, KeySwitch(d, t))
    ensures KeySwitch(d, t).scroll == 0
    ensures d.InStep() ==> KeySwitch(d, t).InStep() && KeySwitch(d, t).video == d.Live(t)
  {
    ResetKeeps(d);
    SwitchKeeps(Reset(d), t);
  }

  lemma PutKeeps(d: Display, t: nat, cell: nat, c: Byte)
    requires d.Valid() && t < TERMINALS && cell < CELLS
    ensures Put(d, t, cell, c).Valid()
    ensures forall u :: 0 <= u < TERMINALS ==>
      Put(d, t, cell, c).Live(u) == if u == t then d.Live(u)[cell := c] else d.Live(u)
    ensures d.InStep() ==> Put(d, t, cell, c).InStep()
  {
    if t == d.current {
      ResetKeeps(d);
    }
  }

  datatype Op =
    | PageUp | PageDown | ResetScroll | Switch(terminal: nat) | MouseSwitch(terminal: nat)
    | Write(terminal: nat, cell: nat, c: Byte)

  predicate Proper(op: Op) {
    match op
    case Switch(t) => t < TERMINALS
    case MouseSwitch(t) => t < TERMINALS
    case Write(t, cell, _) => t < TERMINALS && cell < CELLS
    case _ => true
  }

  function Step(d: Display, op: Op): (r: Display)
    requires d.Shape() && Proper(op)
    ensures r.Shape()
  {
    match op
    case PageUp => Adjust(d, 1)
    case PageDown => Adjust(d, -1)
    case ResetScroll => Reset(d)
    case Switch(t) => KeySwitch(d, t)
    case MouseSwitch(t) => SwitchTo(d, t)
    case Write(t, cell, c) => Put(d, t, cell, c)
  }

  function Run(d: Display, ops: seq<Op>): (r: Display)
    requires d.Shape() && forall i :: 0 <= i < |ops| ==> Proper(ops[i])
    ensures r.Shape()
    decreases |ops|
  {
    if ops == [] then d else Run(Step(d, ops[0]), ops[1..])
  }

  /** A page after the writes of a run that are meant for a terminal. */
  function Written(p: Page, ops: seq<Op>, t: nat): Page
    requires forall i :: 0 <= i < |ops| ==> Proper(ops[i])
    decreases |ops|
  {
    if ops == [] then p
    else
      assert Proper(ops[0]);
      var q: Page := if ops[0].Write? && ops[0].terminal == t then p[ops[0].cell := ops[0].c] else p;
      Written(q, ops[1..], t)
  }

  lemma StepKeeps(d: Display, op: Op, t: nat)
    requires d.Valid() && Proper(op) && t < TERMINALS
    ensures Step(d, op).Valid()
    ensures Step(d, op).Live(t) == if op.Write? && op.terminal == t then d.Live(t)[op.cell := op.c] else d.Live(t)
    ensures d.InStep() && !op.MouseSwitch? ==> Step(d, op).InStep()
  {
    match op
    case PageUp => AdjustKeeps(d, 1);
    case PageDown => AdjustKeeps(d, -1);
    case ResetScroll => ResetKeeps(d);
    case Switch(u) => KeySwitchKeeps(d, u);
    case MouseSwitch(u) => SwitchKeeps(d, u);
    case Write(u, cell, c) => PutKeeps(d, u, cell, c);
  }

  /**
    However terminals are switched, by key or by mouse, scrolled and written to, the live
    screen of each is what its own writes alone would have made of it, and the next reset
    brings the one of the visible terminal to the screen.
   */
  lemma {:induction false} ScreensAreSeparate(d: Display, ops: seq<Op>, t: nat)
    requires d.Valid() && t < TERMINALS && forall i :: 0 <= i < |ops| ==> Proper(ops[i])
    ensures Run(d, ops).Valid()
    ensures Run(d, ops).Live(t) == Written(d.Live(t), ops, t)
    ensures Run(d, ops).current == t ==> Reset(Run(d, ops)).video == Written(d.Live(t), ops, t)
    decreases |ops|
  {
    if ops != [] {
      StepKeeps(d, ops[0], t);
      ScreensAreSeparate(Step(d, ops[0]), ops[1..], t);
    } else {
      ResetKeeps(d);
    }
  }

  /** Without the mouse the scrollback offset always says which page is shown. */
  lemma {:induction false} KeysKeepInStep(d: Display, ops: seq<Op>)
    requires d.Valid() && d.InStep() && forall i :: 0 <= i < |ops| ==> Proper(ops[i]) && !ops[i].MouseSwitch?
    ensures Run(d, ops).Valid() && Run(d, ops).InStep()
    decreases |ops|
  {
    if ops != [] {
      StepKeeps(d, ops[0], 0);
      KeysKeepInStep(Step(d, ops[0]), ops[1..]);
    }
  }

  // ---------------------------------------------------------------- what page up and page down show

  /** The visible terminal shows the page k further up than its live screen, which is page 0. */
  ghost predicate ShowsPage(d: Display, r: Display, k: nat)
    requires d.Shape() && r.Shape()
  {
    && k <= MAX_SCROLLBACK && r.current == d.current && r.scroll == k
    && r.video == (if k == 0 then d.Live(d.current) else d.pages[d.current][k])
    && forall t, j :: 0 <= t < TERMINALS && 1 <= j <= MAX_SCROLLBACK ==> r.pages[t][j] == d.pages[t][j]
  }

  /** Page up shows the page one further up, as far as the fifth, and page down the one further down, as far as the live screen. */
  lemma PageKeys(d: Display)
    requires d.Valid() && d.InStep()
    ensures ShowsPage(d, Step(d, PageUp), Min(5, d.scroll + 1))
    ensures ShowsPage(d, Step(d, PageDown), if d.scroll == 0 then 0 else d.scroll - 1)
  {
  }

  /** Page down undoes page up, unless the fifth page was shown. */
  lemma PageUpThenDown(d: Display)
    requires d.Valid() && d.InStep() && d.scroll < 5
    ensures var r := Step(Step(d, PageUp), PageDown); r.video == d.video && r.scroll == d.scroll && SameScreens(d, r)
  {
    PageKeys(d);
    AdjustKeeps(d, 1);
    PageKeys(Step(d, PageUp));
    AdjustKeeps(Step(d, PageUp), -1);
    hide Adjust;
  }

  /** A write of the visible terminal brings its live screen back and shows in it; one of another terminal does not show. */
  lemma WriteShows(d: Display, t: nat, cell: nat, c: Byte)
    requires d.Valid() && t < TERMINALS && cell < CELLS
    ensures var r := Step(d, Write(t, cell, c));
      && r.current == d.current
      && (t == d.current ==> r.scroll == 0 && r.video == d.Live(t)[cell := c])
      && (t != d.current ==> r.scroll == d.scroll && r.shown == d.shown && r.video == d.video)
  {
    ResetKeeps(d);
  }

  // ---------------------------------------------------------------- switches without a reset

  /** A switch made with the mouse does not reset the scrollback: the offset goes on saying what is shown exactly when nothing is scrolled, or nothing is switched. */
  lemma MouseSwitchIff(d: Display, t: nat)
    requires d.Valid() && d.InStep() && t < TERMINALS
    ensures SwitchTo(d, t).InStep() <==> d.scroll == 0 || t == d.current
  {
  }

  /**
    Scrolled back, away with the mouse and back with a key: the terminal shows the older
    page although the offset is 0. Its live screen is untouched, and the next reset shows it.
   */
  lemma MouseSwitchShowsOlder(d: Display, t: nat)
    requires d.Valid() && d.InStep() && t < TERMINALS && t != d.current && d.scroll > 0
    ensures var r := KeySwitch(SwitchTo(d, t), d.current);
      && r.scroll == 0 && r.video == d.pages[d.current][d.scroll]
      && r.Live(d.current) == d.Live(d.current) && Reset(r).video == d.Live(d.current)
  {
  }

  /** The routines as they update the pages and the video memory. */
  class VideoMemory {
    var video: Page
    var pages: seq<seq<Page>>
    var shown: seq<nat>
    var current: nat
    var scroll: nat

    ghost function View(): Display
      reads this
    {
      Display(video, pages, shown, current, scroll)
    }

    /** init_terminals: blank pages, the first terminal visible. */
    constructor (blank: Page)
      ensures View().Valid() && View().InStep() && forall t :: 0 <= t < TERMINALS ==> View().Live(t) == blank
    {
      video := blank;
      var six: seq<Page> := seq(MAX_SCROLLBACK + 1, _ => blank);
      pages := seq(TERMINALS, _ => six);
      shown := seq(TERMINALS, _ => 0);
      current, scroll := 0, 0;
    }

    method MapBackingPage()
      requires View().Shape()
      modifies this`pages
      ensures View() == MapBacking(old(View()))
    {
      var mine: seq<Page> := pages[current][shown[current] := video];
      pages := pages[current := mine];
    }

    method UnmapBackingPage(t: nat)
      requires View().Shape() && t < TERMINALS
      modifies this`video
      ensures video == pages[t][shown[t]]
    {
      video := pages[t][shown[t]];
    }

    method LoadScrollbackPage(k: nat)
      requires View().Shape() && k <= MAX_SCROLLBACK
      modifies this`shown, this`video
      ensures View() == LoadScrollback(old(View()), k)
    {
      shown := shown[current := k];
      UnmapBackingPage(current);
    }

    method AdjustScrollbackPage(offset: int)
      requires View().Shape()
      modifies this
      ensures View() == Adjust(old(View()), offset)
    {
      if scroll == 0 {
        MapBackingPage();
      }
      if offset + scroll < 0 {
        scroll := 0;
      } else if offset + scroll > MAX_SCROLLBACK {
        scroll := MAX_SCROLLBACK;
      } else {
        scroll := scroll + offset;
      }
      LoadScrollbackPage(scroll);
    }

    method SetScrollbackPage(value: int)
      requires View().Shape()
      modifies this
      ensures View() == SetScrollback(old(View()), value)
    {
      if scroll == 0 {
        MapBackingPage();
      }
      if value < 0 {
        scroll := 0;
      } else if value > MAX_SCROLLBACK {
        scroll := MAX_SCROLLBACK;
      } else {
        scroll := value;
      }
      LoadScrollbackPage(scroll);
    }

    method SwitchTerminals(t: nat)
      requires View().Shape() && t < TERMINALS
      modifies this
      ensures View() == SwitchTo(old(View()), t)
    {
      MapBackingPage();
      current := t;
      UnmapBackingPage(t);
    }

    /** The branch of the key handler for Alt and a function key. */
    method PressSwitch(t: nat)
      requires View().Shape() && t < TERMINALS
      modifies this
      ensures View() == KeySwitch(old(View()), t)
    {
      scroll := 0;
      SetScrollbackPage(0);
      SwitchTerminals(t);
    }

    /** One character of keyboard_write, at a given cell. */
    method WriteCell(t: nat, cell: nat, c: Byte)
      requires View().Shape() && t < TERMINALS && cell < CELLS
      modifies this
      ensures View() == Put(old(View()), t, cell, c)
    {
      if current == t {
        scroll := 0;
        SetScrollbackPage(0);
        video := video[cell := c];
      } else {
        var p: Page := pages[t][0][cell := c];
        var mine: seq<Page> := pages[t][0 := p];
        pages := pages[t := mine];
      }
    }
  }
}
