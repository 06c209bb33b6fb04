/**
  The line editor, command history and line delivery of a terminal (student-distrib/keyboard.c),
  as a function on values. The character arrays that implement it are in TerminalBuffer.dfy.
 */
module LineEditor {
  import opened Machine

  /** 24 rows of 80 columns, and a terminating NUL, less the prompt. */
  const BUFFER_SIZE: nat := 1914
  const MAX_HISTORY: nat := 16
  const SPACE: Byte := 32
  const NL: Byte := 10

  type Line = seq<Byte>

  /** A line short enough for the buffer to hold it, a newline and a NUL. */
  ghost predicate Proper(l: Line) {
    NulFree(l) && |l| <= BUFFER_SIZE - 2
  }

  /**
    What is before and after the cursor, the lines that can be recalled, which of them is
    being looked at, and what a read would deliver.
   */
  datatype Editor = Editor(before: Line, after: Line, history: seq<Line>, at: nat, delivery: Line, ready: bool) {
    function Text(): Line { before + after }
  }

  datatype Key =
    | Type(c: Byte) | Backspace | Left | Right | Home | Kill
    | Recall(offset: int) | Enter

  // ---------------------------------------------------------------- keys

  /** Number of spaces at the end of a line. */
  function TrailingSpaces(l: Line): (n: nat)
    ensures n <= |l|
    ensures forall i :: |l| - n <= i < |l| ==> l[i] == SPACE
    ensures n < |l| ==> l[|l| - n - 1] != SPACE
  {
    if l == [] || l[|l| - 1] != SPACE then 0 else 1 + TrailingSpaces(l[..|l| - 1])
  }

  function Trimmed(l: Line): Line {
    l[..|l| - TrailingSpaces(l)]
  }

  /** Without trailing spaces; the newline comes after them, so it is lost when there are any. */
  function Delivery(l: Line): Line {
    if TrailingSpaces(l) == 0 then l + [NL] else Trimmed(l)
  }

  /** The oldest line gives way when the history is full. */
  function Push(h: seq<Line>, l: Line): seq<Line> {
    (if |h| == MAX_HISTORY then h[1..] else h) + [l]
  }

  /** The line at a position of the history; the position after the last one is an empty line. */
  function Recalled(h: seq<Line>, i: nat): Line
    requires i <= |h|
  {
    if i == |h| then [] else h[i]
  }

  /** Which slot of the history array a key reads, if any: any position up to the number of lines kept is let through. */
  datatype Access = NoSlot | Slot(index: nat)

  function SlotRead(e: Editor, k: Key): Access {
    if k.Recall? && 0 <= e.at + k.offset <= |e.history| then Slot(e.at + k.offset) else NoSlot
  }

  /** A recall of the position after the last line, when the history is full. */
  predicate Outside(e: Editor, k: Key) {
    k.Recall? && |e.history| == MAX_HISTORY && e.at + k.offset == MAX_HISTORY
  }

  function Press(e: Editor, k: Key): Editor
    requires !Outside(e, k)
  {
    match k
    case Type(c) =>
      if c != 0 && |e.before| + |e.after| + 1 < BUFFER_SIZE - 1 then e.(before := e.before + [c]) else e
    case Backspace =>
      if e.before == [] then e else e.(before := e.before[..|e.before| - 1])
    case Left =>
      if e.before == [] then e
      else e.(before := e.before[..|e.before| - 1], after := [e.before[|e.before| - 1]] + e.after)
    case Right =>
      if e.after == [] then e else e.(before := e.before + [e.after[0]], after := e.after[1..])
    case Home => e.(before := [], after := e.before + e.after)
    case Kill => e.(after := [])
    case Recall(offset) =>
      if 0 <= e.at + offset <= |e.history|
      then e.(before := Recalled(e.history, e.at + offset), after := [], at := e.at + offset)
      else e
    case Enter =>
      var h := Push(e.history, e.Text());
      Editor([], [], h, |h|, Delivery(e.Text()), true)
  }

  ghost predicate Valid(e: Editor) {
    && Proper(e.before + e.after)
    && |e.history| <= MAX_HISTORY && e.at <= |e.history|
    && (forall i :: 0 <= i < |e.history| ==> Proper(e.history[i]))
    && NulFree(e.delivery) && |e.delivery| <= BUFFER_SIZE - 1
  }

  lemma NulFreeAppend(a: Line, b: Line)
    ensures NulFree(a + b) <==> NulFree(a) && NulFree(b)
  {
    var c := a + b;
    assert forall i :: 0 <= i < |a| ==> a[i] == c[i];
    assert forall i :: 0 <= i < |b| ==> b[i] == c[|a| + i];
  }

  lemma NulFreePrefix(a: Line, n: nat)
    requires NulFree(a) && n <= |a|
    ensures NulFree(a[..n])
  {
  }

  /** Keys that edit the line keep it free of NULs and short enough. */
  lemma EditKeepsText(e: Editor, k: Key)
    requires Proper(e.before + e.after) && !k.Recall? && !k.Enter?
    ensures Proper(Press(e, k).before + Press(e, k).after)
  {
    hide NulFree;
    var b := e.before;
    NulFreeAppend(b, e.after);
    match k
    case Type(c) =>
      NulFreeAppend(b, [c]);
      NulFreeAppend(b + [c], e.after);
      NulFreeOne(c);
    case Backspace =>
      if b != [] {
        NulFreePrefix(b, |b| - 1);
        NulFreeAppend(b[..|b| - 1], e.after);
      }
    case Kill =>
      assert b + [] == b;
    case _ =>
      CursorKeepsText(e, k);
  }

  lemma NulFreeOne(c: Byte)
    ensures NulFree([c]) <==> c != 0
  {
    assert [c][0] == c;
  }

  lemma DeliveryProper(l: Line)
    requires Proper(l)
    ensures NulFree(Delivery(l)) && |Delivery(l)| <= BUFFER_SIZE - 1
  {
    NulFreeAppend(l, [NL]);
    NulFreeOne(NL);
    NulFreePrefix(l, |l| - TrailingSpaces(l));
  }

  lemma PressKeeps(e: Editor, k: Key)
    requires Valid(e) && !Outside(e, k)
    ensures Valid(Press(e, k))
  {
    hide NulFree, Delivery;
    match k
    case Recall(offset) =>
      var e' := Press(e, k);
      NulFreePrefix(e.before + e.after, 0);
      assert (e.before + e.after)[..0] == [];
      assert 0 <= e.at + offset <= |e.history| ==> e'.before + e'.after == Recalled(e.history, e.at + offset);
    case Enter =>
      DeliveryProper(e.Text());
      NulFreePrefix(e.Text(), 0);
      assert e.Text()[..0] + [] == [];
    case _ =>
      EditKeepsText(e, k);
  }

  // ---------------------------------------------------------------- runs

  const Fresh := Editor([], [], [], 0, [], false)

  ghost predicate Stays(e: Editor, ks: seq<Key>)
    decreases |ks|
  {
    ks == [] || (!Outside(e, ks[0]) && Stays(Press(e, ks[0]), ks[1..]))
  }

  ghost function Pressed(e: Editor, ks: seq<Key>): Editor
    requires Stays(e, ks)
    decreases |ks|
  {
    if ks == [] then e else Pressed(Press(e, ks[0]), ks[1..])
  }

  /** The lines entered over a run of keys. */
  ghost function Entered(e: Editor, ks: seq<Key>): seq<Line>
    requires Stays(e, ks)
    decreases |ks|
  {
    if ks == [] then []
    else (if ks[0].Enter? then [e.Text()] else []) + Entered(Press(e, ks[0]), ks[1..])
  }

  function PushAll(h: seq<Line>, ls: seq<Line>): seq<Line>
    decreases |ls|
  {
    if ls == [] then h else PushAll(Push(h, ls[0]), ls[1..])
  }

  function Last(ls: seq<Line>, n: nat): seq<Line> {
    if |ls| <= n then ls else ls[|ls| - n..]
  }

  /** Pushing lines one by one leaves the last 16. */
  lemma {:induction false} PushAllIsLast(h: seq<Line>, ls: seq<Line>)
    requires |h| <= MAX_HISTORY
    ensures PushAll(h, ls) == Last(h + ls, MAX_HISTORY)
    decreases |ls|
  {
    if ls == [] {
      assert h + ls == h;
    } else {
      PushAllIsLast(Push(h, ls[0]), ls[1..]);
      var all := h + ls;
      if |h| == MAX_HISTORY {
        assert Push(h, ls[0]) + ls[1..] == all[1..];
        LastOfTail(all);
      } else {
        assert Push(h, ls[0]) + ls[1..] == all;
      }
    }
  }

  lemma LastOfTail(ls: seq<Line>)
    requires |ls| > MAX_HISTORY
    ensures Last(ls[1..], MAX_HISTORY) == Last(ls, MAX_HISTORY)
  {
  }

  lemma {:induction false} RunOfKeys(e: Editor, ks: seq<Key>)
    requires Valid(e) && Stays(e, ks)
    ensures Valid(Pressed(e, ks))
    ensures Pressed(e, ks).history == PushAll(e.history, Entered(e, ks))
    decreases |ks|
  {
    if ks != [] {
      PressKeeps(e, ks[0]);
      RunOfKeys(Press(e, ks[0]), ks[1..]);
      EnteredStep(e, ks);
    }
  }

  lemma EnteredStep(e: Editor, ks: seq<Key>)
    requires ks != [] && Stays(e, ks)
    ensures PushAll(Press(e, ks[0]).history, Entered(Press(e, ks[0]), ks[1..])) == PushAll(e.history, Entered(e, ks))
  {
    var rest := Entered(Press(e, ks[0]), ks[1..]);
    if ks[0].Enter? {
      assert Entered(e, ks)[0] == e.Text() && Entered(e, ks)[1..] == rest;
    } else {
      assert Entered(e, ks) == rest;
    }
  }

  /** After any run of keys the history is exactly the last 16 lines entered, in order. */
  lemma HistoryIsLastLines(ks: seq<Key>)
    requires Stays(Fresh, ks)
    ensures Valid(Pressed(Fresh, ks))
    ensures Pressed(Fresh, ks).history == Last(Entered(Fresh, ks), MAX_HISTORY)
  {
    RunOfKeys(Fresh, ks);
    PushAllIsLast([], Entered(Fresh, ks));
    assert [] + Entered(Fresh, ks) == Entered(Fresh, ks);
  }

  /**
    Moving the cursor never changes the text, and what is typed is taken back by as many
    backspaces, wherever the cursor is.
   */
  lemma CursorKeepsText(e: Editor, k: Key)
    requires k in {Left, Right, Home}
    ensures Press(e, k).Text() == e.Text() && Press(e, k).history == e.history
  {
  }

  lemma LeftThenRight(e: Editor)
    requires e.before != []
    ensures Press(Press(e, Left), Right) == e
  {
    assert e.before[..|e.before| - 1] + [e.before[|e.before| - 1]] == e.before;
  }

  lemma TypeThenBackspace(e: Editor, c: Byte)
    requires c != 0 && |e.Text()| + 1 < BUFFER_SIZE - 1
    ensures Press(Press(e, Type(c)), Backspace) == e
  {
    assert (e.before + [c])[..|e.before|] == e.before;
  }

  /** A read gets the line without its trailing spaces, and a newline exactly when there were none. */
  lemma DeliveryIs(e: Editor)
    requires Valid(e)
    ensures var l, r := e.Text(), Press(e, Enter).delivery;
      && (NL !in l ==> (NL in r <==> Trimmed(l) == l))
      && r == Trimmed(l) + (if Trimmed(l) == l then [NL] else [])
      && l == Trimmed(l) + seq(TrailingSpaces(l), _ => SPACE)
  {
    var l := e.Text();
    var n := TrailingSpaces(l);
    assert l[..|l|] == l;
    if n > 0 {
      assert |Trimmed(l)| < |l|;
      assert Trimmed(l) + [] == Trimmed(l);
    }
  }

  // ---------------------------------------------------------------- what each key does

  /** The line has become this text, with the cursor at this place, and nothing else has changed. */
  ghost predicate Edited(e: Editor, r: Editor, text: Line, cursor: nat) {
    && r.before + r.after == text && |r.before| == cursor
    && r.history == e.history && r.at == e.at && r.delivery == e.delivery && r.ready == e.ready
  }

  /** A character goes in at the cursor if there is room for it. */
  lemma TypeInserts(e: Editor, c: Byte)
    ensures var text, k := e.Text(), |e.before|;
      if c != 0 && |text| < BUFFER_SIZE - 2 then Edited(e, Press(e, Type(c)), text[..k] + [c] + text[k..], k + 1)
      else Edited(e, Press(e, Type(c)), text, k)
  {
    assert e.Text()[..|e.before|] == e.before && e.Text()[|e.before|..] == e.after;
  }

  /** The character before the cursor goes, if there is one. */
  lemma BackspaceRemoves(e: Editor)
    ensures var text, k := e.Text(), |e.before|;
      if k > 0 then Edited(e, Press(e, Backspace), text[..k - 1] + text[k..], k - 1) else Edited(e, Press(e, Backspace), text, 0)
  {
    var text, k := e.Text(), |e.before|;
    assert text[k..] == e.after;
    assert k > 0 ==> text[..k - 1] == e.before[..k - 1];
  }

  /** The cursor keys: one place to the left or right within the line, or to its start. */
  lemma CursorMoves(e: Editor)
    ensures var text, k := e.Text(), |e.before|;
      && Edited(e, Press(e, Left), text, if k == 0 then 0 else k - 1)
      && Edited(e, Press(e, Right), text, if k == |text| then k else k + 1)
      && Edited(e, Press(e, Home), text, 0)
  {
    CursorKeepsText(e, Left);
    CursorKeepsText(e, Right);
    CursorKeepsText(e, Home);
  }

  /** The line ends at the cursor. */
  lemma KillCuts(e: Editor)
    ensures Edited(e, Press(e, Kill), e.Text()[..|e.before|], |e.before|)
  {
    assert e.Text()[..|e.before|] == e.before;
  }

  lemma {:induction false} PlaceFollows(e: Editor, p: Place, ks: seq<Key>)
    requires At(e, p) && Stays(e, ks)
    ensures At(Pressed(e, ks), PlaceAfter(p, ks))
    decreases |ks|
  {
    if ks != [] {
      PlaceFollows(Press(e, ks[0]), Moved(p, ks[0]), ks[1..]);
    }
  }

  /**
    A recall brings back lines in the order in which they were entered: of the last n up to
    16 lines the position i stands for the i-th, oldest first, and the one after them for an
    empty line. The cursor is at the end; other positions are refused.
   */
  lemma RecallBrings(ks: seq<Key>, offset: int)
    requires Stays(Fresh, ks) && !Outside(Pressed(Fresh, ks), Recall(offset))
    ensures var e, ls := Pressed(Fresh, ks), Entered(Fresh, ks);
      var r, n, i := Press(e, Recall(offset)), Min(MAX_HISTORY, |ls|), PlaceAfter(Place(0, 0), ks).at + offset;
      && r.history == e.history && r.delivery == e.delivery && r.ready == e.ready
      && (0 <= i < n ==> r.before == ls[|ls| - n + i] && r.after == [] && r.at == i)
      && (i == n ==> n < MAX_HISTORY && r.before == [] && r.after == [] && r.at == i)
      && (i < 0 || i > n ==> r == e)
  {
    hide Pressed, PlaceAfter, Entered, Stays, Valid, Press, Last;
    HistoryIsLastLines(ks);
    PlaceFollows(Fresh, Place(0, 0), ks);
    RecallIs(Pressed(Fresh, ks), offset);
    LastAt(Entered(Fresh, ks));
  }

  lemma RecallIs(e: Editor, offset: int)
    requires !Outside(e, Recall(offset))
    ensures var r, i := Press(e, Recall(offset)), e.at + offset;
      && (0 <= i < |e.history| ==> r == e.(before := e.history[i], after := [], at := i))
      && (i == |e.history| ==> r == e.(before := [], after := [], at := i))
      && (i < 0 || i > |e.history| ==> r == e)
  {
  }

  lemma LastAt(ls: seq<Line>)
    ensures var n := Min(MAX_HISTORY, |ls|);
      |Last(ls, MAX_HISTORY)| == n && forall i :: 0 <= i < n ==> Last(ls, MAX_HISTORY)[i] == ls[|ls| - n + i]
  {
  }

  /** Enter adds the line to those entered, leaves an empty one, and puts the position after the last line kept. */
  lemma EnterStarts(e: Editor)
    requires Valid(e)
    ensures var r := Press(e, Enter);
      && r.before == [] && r.after == [] && r.ready && r.at == |r.history|
      && (if |e.history| < 16 then r.history == e.history + [e.Text()] else r.history == e.history[1..] + [e.Text()])
  {
  }

  // ---------------------------------------------------------------- the way out of the array

  /** A key reads past the 16 slots exactly when it recalls the top position of a full history. */
  lemma OutsideIff(e: Editor, k: Key)
    requires Valid(e)
    ensures Outside(e, k) <==> SlotRead(e, k).Slot? && SlotRead(e, k).index >= MAX_HISTORY
  {
  }

  /** How many lines have been entered and which position is looked at, as the keys alone tell. */
  datatype Place = Place(lines: nat, at: nat)

  function Moved(p: Place, k: Key): Place {
    match k
    case Enter => Place(p.lines + 1, Min(MAX_HISTORY, p.lines + 1))
    case Recall(offset) => if 0 <= p.at + offset <= Min(MAX_HISTORY, p.lines) then p.(at := p.at + offset) else p
    case _ => p
  }

  function PlaceAfter(p: Place, ks: seq<Key>): Place
    decreases |ks|
  {
    if ks == [] then p else PlaceAfter(Moved(p, ks[0]), ks[1..])
  }

  /** Key number j goes back to the top position when at least 16 lines have been entered. */
  predicate BackToTop(p: Place, ks: seq<Key>, j: nat)
    requires j < |ks|
  {
    var q := PlaceAfter(p, ks[..j]);
    ks[j].Recall? && q.lines >= MAX_HISTORY && q.at + ks[j].offset == MAX_HISTORY
  }

  ghost predicate At(e: Editor, p: Place) {
    |e.history| == Min(MAX_HISTORY, p.lines) && e.at == p.at
  }

  lemma BackToTopLater(p: Place, ks: seq<Key>, j: nat)
    requires j + 1 < |ks|
    ensures BackToTop(p, ks, j + 1) <==> BackToTop(Moved(p, ks[0]), ks[1..], j)
  {
    assert ks[..j + 1][1..] == ks[1..][..j];
  }

  lemma {:induction false} StaysFrom(e: Editor, p: Place, ks: seq<Key>)
    requires At(e, p)
    ensures Stays(e, ks) <==> forall j: nat :: j < |ks| ==> !BackToTop(p, ks, j)
    decreases |ks|
  {
    if ks != [] {
      assert ks[..0] == [];
      assert Outside(e, ks[0]) <==> BackToTop(p, ks, 0);
      forall j: nat | j + 1 < |ks| ensures BackToTop(p, ks, j + 1) <==> BackToTop(Moved(p, ks[0]), ks[1..], j) {
        BackToTopLater(p, ks, j);
      }
      assert forall j: nat :: 0 < j < |ks| ==> (BackToTop(p, ks, j) <==> BackToTop(Moved(p, ks[0]), ks[1..], j - 1));
      hide BackToTop;
      if !Outside(e, ks[0]) {
        StaysFrom(Press(e, ks[0]), Moved(p, ks[0]), ks[1..]);
      }
    }
  }

  /**
    A run of keys from an empty editor stays inside the history array exactly when no recall
    in it goes back to the top position once 16 lines have been entered.
   */
  lemma StaysIff(ks: seq<Key>)
    ensures Stays(Fresh, ks) <==> forall j: nat :: j < |ks| ==> !BackToTop(Place(0, 0), ks, j)
  {
    StaysFrom(Fresh, Place(0, 0), ks);
  }

  /** Enough times Enter, then up and down: that goes back to the top. */
  lemma UpThenDownLeavesArray(n: nat)
    requires n >= MAX_HISTORY
    ensures Stays(Fresh, Lines(n) + [Recall(-1)]) && !Stays(Fresh, Lines(n) + [Recall(-1), Recall(1)])
  {
    var a, b := Lines(n) + [Recall(-1)], Lines(n) + [Recall(-1), Recall(1)];
    StaysIff(a);
    StaysIff(b);
    forall j: nat | j < |a| ensures !BackToTop(Place(0, 0), a, j) {
      if j == n {
        assert a[..n] == Lines(n);
        PlaceAfterLines(0, n);
      }
    }
    assert b[..n + 1] == Lines(n) + [Recall(-1)];
    PlaceAfterLines(0, n);
    PlaceAfterAppend(Place(0, 0), Lines(n), Recall(-1));
    assert BackToTop(Place(0, 0), b, n + 1);
  }

  function Lines(n: nat): seq<Key> {
    seq(n, _ => Enter)
  }

  lemma {:induction false} PlaceAfterLines(m: nat, n: nat)
    ensures PlaceAfter(Place(m, Min(MAX_HISTORY, m)), Lines(n)) == Place(m + n, Min(MAX_HISTORY, m + n))
    decreases n
  {
    if n > 0 {
      assert Lines(n)[1..] == Lines(n - 1);
      PlaceAfterLines(m + 1, n - 1);
    }
  }

  lemma {:induction false} PlaceAfterAppend(p: Place, ks: seq<Key>, k: Key)
    ensures PlaceAfter(p, ks + [k]) == Moved(PlaceAfter(p, ks), k)
    decreases |ks|
  {
    var all := ks + [k];
    if ks == [] {
      assert all[1..] == [];
    } else {
      assert all[1..] == ks[1..] + [k];
      PlaceAfterAppend(Moved(p, ks[0]), ks[1..], k);
    }
  }
}
