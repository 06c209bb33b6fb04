/**
  The line search of the grep program (syscalls/ece391grep.c): a file is streamed
  through a window of 1024 bytes, and a line cut off by the end of the window is
  carried over to the next one.
 */
module Grep {
  import opened Machine

  const NUL: Byte := 0
  const NL: Byte := 10
  const BUFSIZE: int := 1024

  type Text = seq<Byte>

  // ---------------------------------------------------------------- what is printed

  /** Length of the first line: everything before the first newline. */
  function LineEnd(c: Text): (e: nat)
    ensures e <= |c|
    ensures e < |c| ==> c[e] == NL
    ensures forall i :: 0 <= i < e ==> c[i] != NL
  {
    if c == [] || c[0] == NL then 0 else 1 + LineEnd(c[1..])
  }

  function Lines(c: Text): seq<Text>
    decreases |c|
  {
    if c == [] then []
    else if LineEnd(c) == |c| then [c]
    else [c[..LineEnd(c)]] + Lines(c[LineEnd(c) + 1..])
  }

  /** The lines as the window sees them: a line that fills the window is cut there. */
  function Pieces(c: Text): seq<Text>
    decreases |c|
  {
    if c == [] then []
    else if LineEnd(c) < BUFSIZE then
      if LineEnd(c) == |c| then [c] else [c[..LineEnd(c)]] + Pieces(c[LineEnd(c) + 1..])
    else [c[..BUFSIZE]] + Pieces(c[BUFSIZE..])
  }

  predicate At(p: Text, line: Text, k: nat) {
    k + |p| <= |line| && line[k..k + |p|] == p
  }

  predicate Contains(p: Text, line: Text) {
    exists k: nat :: k <= |line| && At(p, line, k)
  }

  /**
    The lines the program prints. An empty pattern matches where there is a NUL, and one that
    starts with a byte above 127 nowhere: as a signed char it equals no byte of the file.
   */
  predicate Hit(p: Text, line: Text) {
    if p == [] then NUL in line else p[0] < 128 && Contains(p, line)
  }

  function Hits(p: Text, lines: seq<Text>): seq<Text> {
    if lines == [] then []
    else (if Hit(p, lines[0]) then [lines[0]] else []) + Hits(p, lines[1..])
  }

  /** What a string function sees of a text that is followed by a NUL: everything before the first one. */
  function CString(s: Text): (r: Text)
    ensures |r| <= |s| && r == s[..|r|] && NulFree(r)
    ensures |r| < |s| ==> s[|r|] == NUL
  {
    if s == [] || s[0] == NUL then [] else [s[0]] + CString(s[1..])
  }

  function Printed(name: Text, line: Text): Text {
    name + [58] + CString(line) + [NL]
  }

  function Rendered(name: Text, lines: seq<Text>): Text {
    if lines == [] then [] else Printed(name, lines[0]) + Rendered(name, lines[1..])
  }

  function Output(name: Text, p: Text, lines: seq<Text>): Text {
    Rendered(name, Hits(p, lines))
  }

  /**
    The pieces when the byte past the window is a newline by accident (it is never
    initialized): the first full window that does not end in a newline is cut off there.
   */
  function Expected(c: Text, stale: bool): seq<Text>
    decreases |c|
  {
    if stale && |c| >= BUFSIZE then
      Pieces(c[..BUFSIZE]) +
      (if c[BUFSIZE - 1] == NL then Expected(c[BUFSIZE..], true) else Pieces(c[BUFSIZE..]))
    else Pieces(c)
  }

  // ---------------------------------------------------------------- list facts

  lemma HitsCons(p: Text, l: Text, ls: seq<Text>)
    ensures Hits(p, [l] + ls) == (if Hit(p, l) then [l] else []) + Hits(p, ls)
  {
    assert ([l] + ls)[1..] == ls;
  }

  lemma {:induction false} HitsAppend(p: Text, a: seq<Text>, b: seq<Text>)
    ensures Hits(p, a + b) == Hits(p, a) + Hits(p, b)
    decreases |a|
  {
    if a == [] {
      assert a + b == b;
    } else {
      hide Hits, Hit;
      var l, r := a[0], a[1..];
      assert a == [l] + r && a + b == [l] + (r + b);
      HitsAppend(p, r, b);
      HitsCons(p, l, r);
      HitsCons(p, l, r + b);
      SeqAssoc(if Hit(p, l) then [l] else [], Hits(p, r), Hits(p, b));
    }
  }

  lemma {:induction false} RenderedAppend(name: Text, a: seq<Text>, b: seq<Text>)
    ensures Rendered(name, a + b) == Rendered(name, a) + Rendered(name, b)
    decreases |a|
  {
    if a == [] {
      assert a + b == b;
    } else {
      RenderedAppend(name, a[1..], b);
      assert (a + b)[1..] == a[1..] + b;
      assert Printed(name, a[0]) + (Rendered(name, a[1..]) + Rendered(name, b))
          == Printed(name, a[0]) + Rendered(name, a[1..]) + Rendered(name, b);
    }
  }

  lemma OutputAppend(name: Text, p: Text, a: seq<Text>, b: seq<Text>)
    ensures Output(name, p, a + b) == Output(name, p, a) + Output(name, p, b)
  {
    HitsAppend(p, a, b);
    RenderedAppend(name, Hits(p, a), Hits(p, b));
  }

  lemma OutputOne(name: Text, p: Text, line: Text)
    ensures Output(name, p, [line]) == if Hit(p, line) then Printed(name, line) else []
  {
    assert [line][1..] == [];
    assert Hits(p, [line]) == if Hit(p, line) then [line] else [];
    if Hit(p, line) {
      assert Rendered(name, [line]) == Printed(name, line) + Rendered(name, []);
    }
  }

  /** A line is printed exactly when it has the pattern somewhere in it. */
  lemma HitIff(p: Text, line: Text)
    ensures p != [] ==> (Hit(p, line) <==> p[0] < 128 && exists a: Text, b: Text :: line == a + p + b)
    ensures p == [] ==> (Hit(p, line) <==> exists a: Text, b: Text :: line == a + [NUL] + b)
  {
    hide Contains;
    if p == [] {
      ContainsIff([NUL], line);
      ContainsByte(NUL, line);
    } else {
      ContainsIff(p, line);
    }
  }

  lemma ContainsIff(p: Text, line: Text)
    ensures Contains(p, line) <==> exists a: Text, b: Text :: line == a + p + b
  {
    if k: nat :| k <= |line| && At(p, line, k) {
      assert line == line[..k] + p + line[k + |p|..];
    }
    if a: Text, b: Text :| line == a + p + b {
      assert line[|a|..|a| + |p|] == p;
      assert At(p, line, |a|);
    }
  }

  lemma ContainsByte(c: Byte, line: Text)
    ensures Contains([c], line) <==> c in line
  {
    forall k: nat | k < |line| ensures At([c], line, k) <==> line[k] == c {
      assert line[k..k + 1] == [line[k]];
    }
  }

  /** What is printed for a list of lines: those with the pattern, in order, each up to its first NUL. */
  lemma OutputIs(name: Text, p: Text, line: Text, rest: seq<Text>)
    requires p != [] && p[0] < 128
    ensures Output(name, p, []) == []
    ensures Output(name, p, [line] + rest) == Output(name, p, [line]) + Output(name, p, rest)
    ensures (exists a: Text, b: Text :: line == a + p + b) ==>
      Output(name, p, [line]) == name + AsBytes(":") + CString(line) + AsBytes("\n")
    ensures !(exists a: Text, b: Text :: line == a + p + b) ==> Output(name, p, [line]) == []
  {
    HitIff(p, line);
    OutputAppend(name, p, [line], rest);
    OutputOne(name, p, line);
    assert AsBytes(":") == [58] && AsBytes("\n") == [NL];
  }

  // ---------------------------------------------------------------- pieces and lines

  /** Printing pieces is printing lines, exactly when no line longer than the window has a match. */
  ghost predicate LongLinesMiss(p: Text, lines: seq<Text>) {
    forall i :: 0 <= i < |lines| && |lines[i]| > BUFSIZE ==> !Hit(p, lines[i])
  }

  lemma SubstringHit(p: Text, line: Text, i: nat, j: nat)
    requires i <= j <= |line|
    ensures Hit(p, line[i..j]) ==> Hit(p, line)
  {
    if p == [] {
      assert NUL in line[i..j] ==> NUL in line;
    } else if Hit(p, line[i..j]) {
      var k: nat :| k <= |line[i..j]| && At(p, line[i..j], k);
      var sub := line[i..j];
      forall m | 0 <= m < |p| ensures line[i + k..i + k + |p|][m] == p[m] {
        assert sub[k..k + |p|][m] == sub[k + m] == line[i + k + m];
      }
      assert At(p, line, i + k);
    }
  }

  /** The pieces of one line, cut every 1024 bytes. */
  function Chunks(line: Text): seq<Text>
    decreases |line|
  {
    if |line| < BUFSIZE then [line] else [line[..BUFSIZE]] + Chunks(line[BUFSIZE..])
  }

  lemma LineEndIs(c: Text, e: nat)
    requires e <= |c| && (e < |c| ==> c[e] == NL) && forall i :: 0 <= i < e ==> c[i] != NL
    ensures LineEnd(c) == e
  {
  }

  lemma ChunksLong(c: Text, e: nat)
    requires BUFSIZE <= e <= |c|
    ensures Chunks(c[..e]) == [c[..BUFSIZE]] + Chunks(c[BUFSIZE..][..e - BUFSIZE])
  {
    var l := c[..e];
    assert l[..BUFSIZE] == c[..BUFSIZE] && l[BUFSIZE..] == c[BUFSIZE..][..e - BUFSIZE];
  }

  /** A newline ends the pieces of its line, and the rest of the text starts afresh. */
  lemma {:induction false} PiecesOfLine(c: Text)
    requires LineEnd(c) < |c|
    ensures Pieces(c) == Chunks(c[..LineEnd(c)]) + Pieces(c[LineEnd(c) + 1..])
    decreases |c|
  {
    var e := LineEnd(c);
    if e < BUFSIZE {
      assert Chunks(c[..e]) == [c[..e]];
    } else {
      var d := c[BUFSIZE..];
      LineEndIs(d, e - BUFSIZE);
      PiecesOfLine(d);
      ChunksLong(c, e);
      hide Chunks;
      assert d[e - BUFSIZE + 1..] == c[e + 1..];
      assert Pieces(c) == [c[..BUFSIZE]] + Pieces(d);
      hide Pieces;
      SeqAssoc([c[..BUFSIZE]], Chunks(d[..e - BUFSIZE]), Pieces(c[e + 1..]));
    }
  }

  /** A last line without a newline; one that ends at a cut has no empty piece after it. */
  lemma {:induction false} PiecesOfLastLine(c: Text)
    requires LineEnd(c) == |c|
    ensures Chunks(c) == Pieces(c) || Chunks(c) == Pieces(c) + [[]]
    decreases |c|
  {
    if |c| >= BUFSIZE {
      var d := c[BUFSIZE..];
      LineEndIs(d, |d|);
      PiecesOfLastLine(d);
      assert Pieces(c) == [c[..BUFSIZE]] + Pieces(d);
      assert Chunks(c) == [c[..BUFSIZE]] + Chunks(d);
      assert [c[..BUFSIZE]] + (Pieces(d) + [[]]) == Pieces(c) + [[]];
    }
  }

  lemma NoHitInEmpty(p: Text)
    ensures !Hit(p, [])
  {
    assert forall k: nat :: At(p, [], k) ==> p == [];
  }

  /** A line no longer than the window comes out whole; a line without a match, not at all. */
  lemma {:induction false} HitsOfChunks(p: Text, line: Text)
    ensures |line| <= BUFSIZE || !Hit(p, line) ==> Hits(p, Chunks(line)) == Hits(p, [line])
    decreases |line|
  {
    NoHitInEmpty(p);
    if |line| == BUFSIZE {
      assert line[..BUFSIZE] == line && line[BUFSIZE..] == [];
      assert Chunks(line) == [line] + [[]];
      HitsAppend(p, [line], [[]]);
      assert Hits(p, [[]]) == [] + Hits(p, [[]][1..]);
    } else if |line| > BUFSIZE && !Hit(p, line) {
      var a, b := line[..BUFSIZE], line[BUFSIZE..];
      assert line[0..BUFSIZE] == a && line[BUFSIZE..|line|] == b;
      SubstringHit(p, line, 0, BUFSIZE);
      SubstringHit(p, line, BUFSIZE, |line|);
      HitsOfChunks(p, b);
      HitsAppend(p, [a], Chunks(b));
      assert Hits(p, [a]) == [] && Hits(p, [b]) == [] && Hits(p, [line]) == [];
    }
  }

  lemma HitsOfLast(p: Text, c: Text)
    requires LineEnd(c) == |c| && (|c| <= BUFSIZE || !Hit(p, c))
    ensures Hits(p, Pieces(c)) == Hits(p, [c])
  {
    HitsOfChunks(p, c);
    PiecesOfLastLine(c);
    NoHitInEmpty(p);
    HitsAppend(p, Pieces(c), [[]]);
    assert Hits(p, [[]]) == [] + Hits(p, [[]][1..]);
  }

  lemma LongLinesTail(p: Text, l: Text, ls: seq<Text>)
    ensures LongLinesMiss(p, [l] + ls) <==> (|l| <= BUFSIZE || !Hit(p, l)) && LongLinesMiss(p, ls)
  {
    var all := [l] + ls;
    assert all[0] == l;
    assert forall i :: 0 <= i < |ls| ==> all[i + 1] == ls[i];
  }

  lemma LinesOfLine(c: Text)
    requires LineEnd(c) < |c|
    ensures Lines(c) == [c[..LineEnd(c)]] + Lines(c[LineEnd(c) + 1..])
  {
    hide LineEnd;
  }

  lemma LinesOfLast(c: Text)
    requires c != [] && LineEnd(c) == |c|
    ensures Lines(c) == [c]
  {
  }

  /** The first line and the pieces it comes out as. */
  lemma FirstLinePrints(p: Text, c: Text)
    requires LineEnd(c) < |c| && (LineEnd(c) <= BUFSIZE || !Hit(p, c[..LineEnd(c)]))
    requires Hits(p, Pieces(c[LineEnd(c) + 1..])) == Hits(p, Lines(c[LineEnd(c) + 1..]))
    ensures Hits(p, Pieces(c)) == Hits(p, Lines(c))
  {
    hide Hits, Pieces, Chunks, Lines, LineEnd, Hit;
    var l, d := c[..LineEnd(c)], c[LineEnd(c) + 1..];
    LinesOfLine(c);
    PiecesOfLine(c);
    HitsOfChunks(p, l);
    HitsAppend(p, Chunks(l), Pieces(d));
    HitsAppend(p, [l], Lines(d));
  }

  lemma {:induction false} PiecesPrintLines(p: Text, c: Text)
    requires LongLinesMiss(p, Lines(c))
    ensures Hits(p, Pieces(c)) == Hits(p, Lines(c))
    decreases |c|
  {
    hide LongLinesMiss, Hits, Pieces, Lines, LineEnd, Hit;
    if c == [] {
      NothingToPrint(c);
    } else if LineEnd(c) < |c| {
      LinesOfLine(c);
      LongLinesTail(p, c[..LineEnd(c)], Lines(c[LineEnd(c) + 1..]));
      PiecesPrintLines(p, c[LineEnd(c) + 1..]);
      FirstLinePrints(p, c);
    } else {
      LinesOfLast(c);
      LongLinesTail(p, c, []);
      assert [c] + [] == [c];
      HitsOfLast(p, c);
    }
  }

  lemma NothingToPrint(c: Text)
    requires c == []
    ensures Pieces(c) == Lines(c) == []
  {
  }

  lemma {:induction false} PiecesAreShort(c: Text)
    ensures forall i :: 0 <= i < |Pieces(c)| ==> |Pieces(c)[i]| <= BUFSIZE
    decreases |c|
  {
    if c != [] {
      var e := LineEnd(c);
      if e < BUFSIZE && e < |c| {
        PiecesAreShort(c[e + 1..]);
      } else if e >= BUFSIZE {
        PiecesAreShort(c[BUFSIZE..]);
      }
    }
  }

  lemma {:induction false} HitsMember(p: Text, lines: seq<Text>, l: Text)
    ensures l in Hits(p, lines) <==> l in lines && Hit(p, l)
    decreases |lines|
  {
    if lines != [] {
      HitsMember(p, lines[1..], l);
      assert lines == [lines[0]] + lines[1..];
    }
  }

  /**
    The program prints, in order and once each, exactly the lines of the file that
    match, if and only if no line longer than the window matches.
   */
  lemma PiecesPrintLinesIff(p: Text, c: Text)
    ensures Hits(p, Pieces(c)) == Hits(p, Lines(c)) <==> LongLinesMiss(p, Lines(c))
  {
    if LongLinesMiss(p, Lines(c)) {
      PiecesPrintLines(p, c);
    } else {
      var i :| 0 <= i < |Lines(c)| && |Lines(c)[i]| > BUFSIZE && Hit(p, Lines(c)[i]);
      var l := Lines(c)[i];
      HitsMember(p, Lines(c), l);
      HitsMember(p, Pieces(c), l);
      PiecesAreShort(c);
      assert l !in Pieces(c);
    }
  }

  /** Lines lose nothing: with their newlines put back they are the file. */
  function Joined(lines: seq<Text>): Text {
    if lines == [] then [] else lines[0] + [NL] + Joined(lines[1..])
  }

  /** A text with the newline of its last line put in if it is missing. */
  function Closed(c: Text): Text {
    if c == [] || c[|c| - 1] == NL then c else c + [NL]
  }

  lemma ClosedLine(l: Text, d: Text)
    ensures Closed(l + [NL] + d) == l + [NL] + Closed(d)
  {
    var c := l + [NL] + d;
    assert c[|c| - 1] == if d == [] then NL else d[|d| - 1];
    assert l + [NL] + (d + [NL]) == c + [NL];
  }

  lemma JoinedCons(l: Text, ls: seq<Text>)
    ensures Joined([l] + ls) == l + [NL] + Joined(ls)
  {
    assert ([l] + ls)[1..] == ls;
  }

  lemma {:induction false} LinesJoin(c: Text)
    ensures Joined(Lines(c)) == Closed(c)
    decreases |c|
  {
    if c != [] {
      hide Joined, Closed;
      var e := LineEnd(c);
      if e < |c| {
        var l, d := c[..e], c[e + 1..];
        LinesJoin(d);
        assert c == l + [NL] + d;
        ClosedLine(l, d);
        JoinedCons(l, Lines(d));
      } else {
        OneLine(c);
      }
    }
  }

  lemma OneLine(c: Text)
    requires c != [] && LineEnd(c) == |c|
    ensures Joined([c]) == Closed(c)
  {
    JoinedCons(c, []);
    assert [c] + [] == [c];
  }

  lemma {:induction false} LinesLack(c: Text, b: Byte)
    requires b == NL || b !in c
    ensures Lacking(Lines(c), b)
    decreases |c|
  {
    if c != [] && LineEnd(c) < |c| {
      LinesLack(c[LineEnd(c) + 1..], b);
    }
  }

  // ---------------------------------------------------------------- a stale newline past the window

  /** Where a stale newline cuts the file: after the first full window that does not end in a newline, or nowhere. */
  function Cut(c: Text): (q: nat)
    ensures q <= |c|
    ensures q < |c| ==> q >= BUFSIZE && c[q - 1] != NL
    decreases |c|
  {
    if |c| < BUFSIZE then |c|
    else if c[BUFSIZE - 1] != NL then BUFSIZE
    else BUFSIZE + Cut(c[BUFSIZE..])
  }

  /** The bytes from i to j are a line of the file. */
  ghost predicate LineSpan(c: Text, i: nat, j: nat) {
    && i <= j <= |c|
    && (i == 0 || c[i - 1] == NL) && (j == |c| || c[j] == NL)
    && forall k :: i <= k < j ==> c[k] != NL
  }

  /** No line with a match lies across position q of the file. */
  ghost predicate NoHitAcross(p: Text, c: Text, q: nat) {
    forall i: nat, j: nat :: i < q < j && LineSpan(c, i, j) ==> !Hit(p, c[i..j])
  }

  /** When the program prints exactly the lines that match, for either value of the byte past the window. */
  ghost predicate PrintsLines(p: Text, c: Text, stale: bool) {
    LongLinesMiss(p, Lines(c)) && (stale ==> NoHitAcross(p, c, Cut(c)))
  }

  /** The first line of a text is the same whatever follows the text. */
  lemma FirstLineOf(a: Text, b: Text)
    requires a != [] && a[|a| - 1] == NL
    ensures var e := LineEnd(a);
      && e < |a| && LineEnd(a + b) == e
      && (a + b)[..e] == a[..e] && (a + b)[e + 1..] == a[e + 1..] + b
      && (a[e + 1..] == [] || a[e + 1..][|a| - e - 2] == NL)
  {
    LineEndIs(a + b, LineEnd(a));
  }

  /** A newline ends the pieces before it, and the lines. */
  lemma {:induction false} SplitAfterNewline(a: Text, b: Text)
    requires a == [] || a[|a| - 1] == NL
    ensures Pieces(a + b) == Pieces(a) + Pieces(b) && Lines(a + b) == Lines(a) + Lines(b)
    decreases |a|
  {
    if a == [] {
      assert a + b == b;
    } else {
      hide Pieces, Lines, Chunks, LineEnd;
      FirstLineOf(a, b);
      var c, l, r := a + b, a[..LineEnd(a)], a[LineEnd(a) + 1..];
      PiecesOfLine(c);
      PiecesOfLine(a);
      LinesOfLine(c);
      LinesOfLine(a);
      SplitAfterNewline(r, b);
      SeqAssoc(Chunks(l), Pieces(r), Pieces(b));
      SeqAssoc([l], Lines(r), Lines(b));
    }
  }

  lemma WindowEndsLine(c: Text)
    requires |c| >= BUFSIZE && c[BUFSIZE - 1] == NL
    ensures Expected(c, true) == Pieces(c[..BUFSIZE]) + Expected(c[BUFSIZE..], true)
    ensures Cut(c) == BUFSIZE + Cut(c[BUFSIZE..])
  {
    hide Pieces;
  }

  lemma NoFullWindow(c: Text)
    requires |c| < BUFSIZE
    ensures Expected(c, true) == Pieces(c) && Cut(c) == |c|
  {
    hide Pieces;
  }

  lemma WindowCut(c: Text)
    requires |c| >= BUFSIZE && c[BUFSIZE - 1] != NL
    ensures Expected(c, true) == Pieces(c[..BUFSIZE]) + Pieces(c[BUFSIZE..]) && Cut(c) == BUFSIZE
  {
    hide Pieces;
  }

  /** With a stale newline the file is searched as two texts, up to the cut and from there on. */
  lemma {:induction false} ExpectedIsCut(c: Text)
    ensures Expected(c, true) == Pieces(c[..Cut(c)]) + Pieces(c[Cut(c)..])
    decreases |c|
  {
    hide Expected, Pieces, Cut, Lines;
    if |c| < BUFSIZE {
      NoFullWindow(c);
      assert c[..|c|] == c && c[|c|..] == [];
      PiecesNone();
      assert Pieces(c) + [] == Pieces(c);
    } else if c[BUFSIZE - 1] != NL {
      WindowCut(c);
    } else {
      var w, d := c[..BUFSIZE], c[BUFSIZE..];
      WindowEndsLine(c);
      ExpectedIsCut(d);
      var r := Cut(d);
      PrefixSuffix(c, BUFSIZE, r);
      SplitAfterNewline(w, d[..r]);
      SeqAssoc(Pieces(w), Pieces(d[..r]), Pieces(d[r..]));
    }
  }

  lemma PrefixSuffix(c: Text, a: nat, b: nat)
    requires a + b <= |c|
    ensures c[..a + b] == c[..a] + c[a..][..b] && c[a + b..] == c[a..][b..]
  {
  }

  /** The start of the line that position q is in. */
  function LineStart(c: Text, q: nat): (i: nat)
    requires q <= |c|
    ensures i <= q && (i == 0 || c[i - 1] == NL)
    ensures forall k :: i <= k < q ==> c[k] != NL
  {
    if q == 0 || c[q - 1] == NL then q else LineStart(c, q - 1)
  }

  /** At most one line lies across a position. */
  lemma SpanIs(c: Text, q: nat, i: nat, j: nat)
    requires q <= |c| && i < q < j && LineSpan(c, i, j)
    ensures i == LineStart(c, q) && j == q + LineEnd(c[q..])
  {
    assert LineStart(c, q) > 0 ==> c[LineStart(c, q) - 1] == NL;
    assert i > 0 ==> c[i - 1] == NL;
    LineEndIs(c[q..], j - q);
  }

  lemma LineEndAt(c: Text, q: nat, k: nat)
    requires q <= |c| && k < LineEnd(c[q..])
    ensures q + LineEnd(c[q..]) <= |c| && c[q + k] != NL
  {
    assert c[q..][k] == c[q + k];
  }

  lemma SpanHere(c: Text, q: nat)
    requires q < |c|
    ensures LineSpan(c, LineStart(c, q), q + LineEnd(c[q..]))
  {
    var i, e := LineStart(c, q), LineEnd(c[q..]);
    forall k | i <= k < q + e ensures c[k] != NL {
      if k >= q {
        LineEndAt(c, q, k - q);
      }
    }
  }

  lemma SpanParts(c: Text, i: nat, q: nat, j: nat)
    requires i <= q <= j <= |c|
    ensures c[i..j] == c[i..q] + c[q..][..j - q]
  {
  }

  /** What the line across a position must be like for no match to be lost: it ends there, or does not match. */
  lemma NoHitAcrossIs(p: Text, c: Text, q: nat, line: Text)
    requires q < |c| && LineStart(c, q) < q && line == c[LineStart(c, q)..q + LineEnd(c[q..])]
    ensures NoHitAcross(p, c, q) <==> LineEnd(c[q..]) == 0 || !Hit(p, line)
  {
    hide LineStart, LineEnd, Hit;
    SpanHere(c, q);
    forall i: nat, j: nat | i < q < j && LineSpan(c, i, j)
      ensures c[i..j] == line
    {
      SpanIs(c, q, i, j);
    }
    hide LineSpan;
  }

  lemma HitsShort(p: Text, line: Text)
    requires |line| <= BUFSIZE || !Hit(p, line)
    requires forall k :: 0 <= k < |line| ==> line[k] != NL
    ensures Hits(p, Pieces(line)) == Hits(p, [line])
  {
    LineEndIs(line, |line|);
    HitsOfLast(p, line);
  }

  lemma HitsOne(p: Text, line: Text)
    ensures Hits(p, [line]) == if Hit(p, line) then [line] else []
  {
    HitsCons(p, line, []);
    assert [line] + [] == [line];
  }

  /** A line that is cut in two prints as it should exactly when it does not match or one part is empty. */
  lemma HitsOfParts(p: Text, a: Text, b: Text)
    requires a != []
    ensures Hits(p, [a]) + Hits(p, [b]) == Hits(p, [a + b]) <==> b == [] || !Hit(p, a + b)
  {
    hide Hit;
    var l := a + b;
    HitsOne(p, a);
    HitsOne(p, b);
    HitsOne(p, l);
    NoHitInEmpty(p);
    assert l[0..|a|] == a && l[|a|..|l|] == b;
    SubstringHit(p, l, 0, |a|);
    SubstringHit(p, l, |a|, |l|);
    if b == [] {
      assert l == a;
    } else if Hit(p, l) {
      var both := Hits(p, [a]) + Hits(p, [b]);
      assert both != [] ==> both[0] != l;
    }
  }

  lemma Cancel<T>(a: seq<T>, x: seq<T>, y: seq<T>, b: seq<T>)
    ensures a + x + b == a + y + b <==> x == y
  {
    if a + x + b == a + y + b {
      var s := a + x + b;
      assert |x| == |y| && s[|a|..|a| + |x|] == x && (a + y + b)[|a|..|a| + |y|] == y;
    }
  }

  lemma LongLinesAppend(p: Text, a: seq<Text>, b: seq<Text>)
    ensures LongLinesMiss(p, a + b) <==> LongLinesMiss(p, a) && LongLinesMiss(p, b)
  {
    var all := a + b;
    assert forall i :: 0 <= i < |a| ==> a[i] == all[i];
    assert forall i :: 0 <= i < |b| ==> b[i] == all[|a| + i];
  }

  /** What follows the first line of a text. */
  function AfterLine(c: Text): Text {
    if LineEnd(c) < |c| then c[LineEnd(c) + 1..] else []
  }

  lemma LinesFirst(c: Text)
    requires c != []
    ensures Lines(c) == [c[..LineEnd(c)]] + Lines(AfterLine(c))
  {
    if LineEnd(c) < |c| {
      LinesOfLine(c);
    } else {
      hide LineEnd;
      assert Lines(c) == [c] && c[..|c|] == c;
    }
  }

  /** How far the line that a position lies in goes. */
  lemma LineFrom(c: Text, q: nat)
    requires q < |c|
    ensures LineEnd(c[LineStart(c, q)..]) == q - LineStart(c, q) + LineEnd(c[q..])
  {
    hide LineStart, LineEnd, LineSpan;
    SpanHere(c, q);
    LineEndFrom(c, LineStart(c, q), q + LineEnd(c[q..]));
  }

  lemma SuffixParts(c: Text, i: nat, q: nat)
    requires i <= q <= |c|
    ensures c[i..] == c[i..q] + c[q..] && c == c[..i] + c[i..] && c[..q] == c[..i] + c[i..q]
  {
  }

  lemma LineEndFrom(c: Text, i: nat, e: nat)
    requires LineSpan(c, i, e)
    ensures LineEnd(c[i..]) == e - i
  {
    LineEndIs(c[i..], e - i);
  }

  lemma AfterJoined(m: Text, d: Text)
    requires LineEnd(m + d) == |m| + LineEnd(d)
    ensures AfterLine(m + d) == AfterLine(d)
    ensures (m + d)[..LineEnd(m + d)] == m + d[..LineEnd(d)]
  {
    hide LineEnd;
  }

  /** A text whose first line is long enough to be m and the start of d. */
  lemma LinesJoined(m: Text, d: Text)
    requires d != [] && LineEnd(m + d) == |m| + LineEnd(d)
    ensures Lines(m + d) == [m + d[..LineEnd(d)]] + Lines(AfterLine(d))
  {
    hide Lines, LineEnd, AfterLine;
    LinesFirst(m + d);
    AfterJoined(m, d);
  }

  /** A position within a line splits the text around it. */
  lemma LinesAround(c: Text, q: nat)
    requires q < |c| && LineStart(c, q) < q
    ensures var i, d := LineStart(c, q), c[q..];
      && Pieces(c[..q]) == Pieces(c[..i]) + Pieces(c[i..q])
      && Lines(c) == Lines(c[..i]) + ([c[i..q] + d[..LineEnd(d)]] + Lines(AfterLine(d)))
  {
    hide Pieces, Lines, LineStart, LineEnd, AfterLine;
    var i, d := LineStart(c, q), c[q..];
    var a, m := c[..i], c[i..q];
    SuffixParts(c, i, q);
    SplitAfterNewline(a, m);
    SplitAfterNewline(a, m + d);
    LineFrom(c, q);
    LinesJoined(m, d);
  }

  /** Cutting a file inside a line does no harm exactly when no line with a match lies across the cut. */
  lemma CutPrintsIff(p: Text, c: Text, q: nat)
    requires q < |c| && LineStart(c, q) < q && LongLinesMiss(p, Lines(c))
    ensures Hits(p, Pieces(c[..q]) + Pieces(c[q..])) == Hits(p, Lines(c)) <==> NoHitAcross(p, c, q)
  {
    hide Pieces, Lines, LineStart, LineEnd, LongLinesMiss, Hits, Hit, AfterLine, NoHitAcross;
    var i, d := LineStart(c, q), c[q..];
    var a, m, n, t := c[..i], c[i..q], d[..LineEnd(d)], AfterLine(d);
    LinesAround(c, q);
    LinesFirst(d);
    SpanParts(c, i, q, q + LineEnd(d));
    NoHitAcrossIs(p, c, q, m + n);
    LongLinesAppend(p, Lines(a), [m + n] + Lines(t));
    LongLinesTail(p, m + n, Lines(t));
    LongLinesTail(p, n, Lines(t));
    LongParts(p, m, n);
    PiecesPrintLines(p, a);
    PiecesPrintLines(p, d);
    HitsShort(p, m);
    HitsAppend(p, Pieces(c[..q]), Pieces(d));
    HitsAppend(p, Pieces(a), Pieces(m));
    HitsAppend(p, [n], Lines(t));
    HitsAppend(p, Lines(a), [m + n] + Lines(t));
    HitsAppend(p, [m + n], Lines(t));
    HitsOfParts(p, m, n);
    var x, y, u, v, w := Hits(p, [m]), Hits(p, [n]), Hits(p, [m + n]), Hits(p, Lines(a)), Hits(p, Lines(t));
    assert v + x + (y + w) == v + (x + y) + w && v + (u + w) == v + u + w;
    Cancel(v, x + y, u, w);
  }

  /** If a line is short or does not match, so are its parts. */
  lemma LongParts(p: Text, m: Text, n: Text)
    requires |m + n| <= BUFSIZE || !Hit(p, m + n)
    ensures (|m| <= BUFSIZE || !Hit(p, m)) && (|n| <= BUFSIZE || !Hit(p, n))
  {
    var l := m + n;
    assert l[0..|m|] == m && l[|m|..|l|] == n;
    SubstringHit(p, l, 0, |m|);
    SubstringHit(p, l, |m|, |l|);
  }

  lemma ShortParts(a: seq<Text>, b: seq<Text>, l: Text)
    requires forall i :: 0 <= i < |a| ==> |a[i]| < |l|
    requires forall i :: 0 <= i < |b| ==> |b[i]| < |l|
    ensures l !in a + b
  {
  }

  /**
    For either value of the byte past the window: the program prints, in order and once
    each, exactly the lines of the file that match, if and only if no line longer than the
    window matches and, when the byte is a newline, no line that matches lies across the
    first window end that is not a line end.
   */
  lemma ExpectedPrintLinesIff(p: Text, c: Text, stale: bool)
    ensures Hits(p, Expected(c, stale)) == Hits(p, Lines(c)) <==> PrintsLines(p, c, stale)
  {
    hide Pieces, Lines, Hits, Hit, LineStart, NoHitAcross, Expected;
    if !stale {
      PiecesPrintLinesIff(p, c);
      NotStale(c);
    } else {
      var q := Cut(c);
      ExpectedIsCut(c);
      if LongLinesMiss(p, Lines(c)) {
        if q < |c| {
          CutPrintsIff(p, c, q);
        } else {
          assert c[..q] == c && c[q..] == [];
          PiecesNone();
          assert Pieces(c) + [] == Pieces(c);
          PiecesPrintLinesIff(p, c);
          NothingAcrossEnd(p, c);
        }
      } else {
        var i :| 0 <= i < |Lines(c)| && |Lines(c)[i]| > BUFSIZE && Hit(p, Lines(c)[i]);
        var l := Lines(c)[i];
        PiecesAreShort(c[..q]);
        PiecesAreShort(c[q..]);
        ShortParts(Pieces(c[..q]), Pieces(c[q..]), l);
        HitsMember(p, Lines(c), l);
        HitsMember(p, Expected(c, true), l);
      }
    }
  }

  lemma NotStale(c: Text)
    ensures Expected(c, false) == Pieces(c)
  {
  }

  lemma PiecesNone()
    ensures Pieces([]) == []
  {
  }

  lemma NothingAcrossEnd(p: Text, c: Text)
    ensures NoHitAcross(p, c, |c|)
  {
  }

  /** No text of a list contains the byte. */
  ghost predicate Lacking(ls: seq<Text>, b: Byte) {
    forall i :: 0 <= i < |ls| ==> b !in ls[i]
  }

  lemma LineEndOf(l: Text, x: Text)
    requires NL !in l
    ensures LineEnd(l + [NL] + x) == |l|
  {
    var c := l + [NL] + x;
    assert forall i :: 0 <= i < |l| ==> c[i] == l[i] && l[i] in l;
    LineEndIs(c, |l|);
  }

  lemma CStringIs(s: Text)
    requires NUL !in s
    ensures CString(s) == s
  {
    assert s[..|s|] == s;
  }

  lemma PrintedUnique(name: Text, l: Text, x: Text, m: Text, y: Text)
    requires NL !in l && NL !in m && NUL !in l && NUL !in m && Printed(name, l) + x == Printed(name, m) + y
    ensures l == m && x == y
  {
    CStringIs(l);
    CStringIs(m);
    hide CString;
    var s, t, n := Printed(name, l) + x, Printed(name, m) + y, |name| + 1;
    assert s[n..] == l + [NL] + x && t[n..] == m + [NL] + y;
    LineEndOf(l, x);
    LineEndOf(m, y);
    hide LineEnd;
    assert s[n..][..|l|] == l && t[n..][..|m|] == m;
    assert s[n..][|l| + 1..] == x && t[n..][|m| + 1..] == y;
  }

  /** What is printed tells which lines were printed. */
  lemma {:induction false} RenderedUnique(name: Text, a: seq<Text>, b: seq<Text>)
    requires Lacking(a, NL) && Lacking(b, NL) && Lacking(a, NUL) && Lacking(b, NUL)
    requires Rendered(name, a) == Rendered(name, b)
    ensures a == b
    decreases |a|
  {
    if a != [] && b != [] {
      PrintedUnique(name, a[0], Rendered(name, a[1..]), b[0], Rendered(name, b[1..]));
      RenderedUnique(name, a[1..], b[1..]);
      assert a == [a[0]] + a[1..] && b == [b[0]] + b[1..];
    }
  }

  lemma {:induction false} PiecesLack(c: Text, b: Byte)
    requires b == NL || b !in c
    ensures Lacking(Pieces(c), b)
    decreases |c|
  {
    if c != [] {
      var e := LineEnd(c);
      if e < BUFSIZE && e < |c| {
        PiecesLack(c[e + 1..], b);
      } else if e >= BUFSIZE {
        PiecesLack(c[BUFSIZE..], b);
      }
    }
  }

  lemma HitsLack(p: Text, ls: seq<Text>, b: Byte)
    requires Lacking(ls, b)
    ensures Lacking(Hits(p, ls), b)
  {
    hide Hits;
    forall i | 0 <= i < |Hits(p, ls)| ensures b !in Hits(p, ls)[i] {
      HitsMember(p, ls, Hits(p, ls)[i]);
    }
  }

  /** The output is that of the matching lines exactly under the same condition. */
  lemma OutputPrintsLinesIff(before: Text, name: Text, p: Text, c: Text, stale: bool, tail: Text)
    requires NulFree(c)
    ensures before + Output(name, p, Expected(c, stale)) + tail == before + Output(name, p, Lines(c)) + tail
       <==> PrintsLines(p, c, stale)
  {
    assert NUL !in c;
    hide Pieces, Lines, Expected, Hits, Rendered, PrintsLines, Lacking;
    var a, b := Hits(p, Expected(c, stale)), Hits(p, Lines(c));
    ExpectedPrintLinesIff(p, c, stale);
    Cancel(before, Rendered(name, a), Rendered(name, b), tail);
    if Rendered(name, a) == Rendered(name, b) {
      HitsAreLines(p, c, stale, NL);
      HitsAreLines(p, c, stale, NUL);
      RenderedUnique(name, a, b);
    }
  }

  lemma HitsAreLines(p: Text, c: Text, stale: bool, b: Byte)
    requires b == NL || b !in c
    ensures Lacking(Hits(p, Expected(c, stale)), b) && Lacking(Hits(p, Lines(c)), b)
  {
    hide Lines, Expected, Hits, Lacking;
    LinesLack(c, b);
    ExpectedLack(c, stale, b);
    HitsLack(p, Lines(c), b);
    HitsLack(p, Expected(c, stale), b);
  }

  lemma ExpectedLack(c: Text, stale: bool, b: Byte)
    requires b == NL || b !in c
    ensures Lacking(Expected(c, stale), b)
  {
    hide Pieces, Expected;
    if stale {
      ExpectedIsCut(c);
      PiecesLack(c[..Cut(c)], b);
      PiecesLack(c[Cut(c)..], b);
    } else {
      NotStale(c);
      PiecesLack(c, b);
    }
  }

  /** A line of 1025 bytes that matches everywhere comes out as two pieces. */
  lemma LongLineIsCut() returns (p: Text, c: Text)
    ensures NulFree(p) && NulFree(c) && NL !in c
    ensures Hits(p, Lines(c)) == [c] && c !in Hits(p, Expected(c, false))
  {
    p, c := [97], seq(BUFSIZE + 1, i => 97);
    LineEndIs(c, |c|);
    assert Lines(c) == [c];
    assert Starts(p, c, 0);
    hide Lines, Pieces, Hit, At, Hits, Starts;
    HitsOne(p, c);
    NotStale(c);
    PiecesAreShort(c);
    HitsMember(p, Pieces(c), c);
    HitHere(p, c, 0);
  }

  /**
    With no long line at all a stale newline past the window does harm: of an empty line
    and a line of 1024 bytes that matches at its end, that line is lost.
   */
  lemma StaleNewlineCuts() returns (p: Text, c: Text)
    ensures NulFree(p) && NulFree(c) && (forall i :: 0 <= i < |Lines(c)| ==> |Lines(c)[i]| <= BUFSIZE)
    ensures Hits(p, Expected(c, true)) != Hits(p, Lines(c))
  {
    var line: Text := seq(BUFSIZE, i => if i == BUFSIZE - 1 then 98 else 97);
    p, c := [98], [NL] + line;
    TwoLines(c, line);
    assert Starts(p, line, BUFSIZE - 1);
    HitHere(p, line, BUFSIZE - 1);
    hide Lines, Hits, Hit, At, Expected;
    assert c[1..BUFSIZE + 1] == line && LineSpan(c, 1, BUFSIZE + 1);
    assert Cut(c) == BUFSIZE;
    assert !NoHitAcross(p, c, Cut(c));
    ExpectedPrintLinesIff(p, c, true);
  }

  lemma TwoLines(c: Text, line: Text)
    requires c == [NL] + line && line != [] && NL !in line
    ensures Lines(c) == [[], line]
  {
    LineEndIs(c, 0);
    LineEndIs(line, |line|);
    assert c[0 + 1..] == line && c[..0] == [];
    assert Lines(line) == [line];
    LinesOfLine(c);
  }

  // ---------------------------------------------------------------- one step of the window

  lemma PiecesOfFirst(c: Text, e: nat)
    requires e < |c| && e < BUFSIZE && c[e] == NL && forall i :: 0 <= i < e ==> c[i] != NL
    ensures Pieces(c) == [c[..e]] + Pieces(c[e + 1..])
  {
    LineEndIs(c, e);
  }

  /** A text without a newline that reaches the end of the window or of the file is one piece. */
  lemma PiecesOfRest(c: Text, n: nat)
    requires n <= |c| && n <= BUFSIZE && (n == |c| || n == BUFSIZE)
    requires forall i :: 0 <= i < n ==> c[i] != NL
    ensures n > 0 ==> Pieces(c) == [c[..n]] + Pieces(c[n..])
    ensures n == 0 ==> c == [] && Pieces(c) == []
  {
    if n > 0 {
      if n == |c| {
        LineEndIs(c, n);
        assert c[..n] == c && c[n..] == [];
      } else {
        assert LineEnd(c) >= BUFSIZE;
      }
    }
  }

  /** Which part of the file the next window decides: all of it, or just the window when a stale newline ends it. */
  function Segment(rest: Text, stale: bool): Text {
    if stale && |rest| >= BUFSIZE then rest[..BUFSIZE] else rest
  }

  function SegmentAt(c: Text, p: nat, stale: bool): Text
    requires p <= |c|
  {
    Segment(c[p..], stale)
  }

  function ExpectedFrom(c: Text, p: nat, stale: bool): seq<Text>
    requires p <= |c|
  {
    Expected(c[p..], stale)
  }

  function PiecesFrom(c: Text, p: nat): seq<Text>
    requires p <= |c|
  {
    Pieces(c[p..])
  }

  lemma WindowStep(rest: Text, stale: bool, last0: nat, last: nat, done: seq<Text>, stale': bool)
    requires last0 == Min(BUFSIZE, |rest|) && last <= last0
    requires Pieces(Segment(rest, stale)) == done + Pieces(Segment(rest, stale)[last0 - last..])
    requires last0 == BUFSIZE && stale ==> last == 0
    requires stale' <==> stale && !(last0 == BUFSIZE && rest[BUFSIZE - 1] != NL)
    ensures Expected(rest, stale) == done + Expected(rest[last0 - last..], stale')
  {
    if stale && |rest| >= BUFSIZE {
      assert rest[..BUFSIZE][BUFSIZE..] == [];
      assert Pieces(rest[..BUFSIZE]) == done;
    } else {
      assert Segment(rest, stale) == rest;
    }
  }

  /** A buffer that starts with part of a text. */
  ghost predicate Begins(buf: Text, c: Text, from: nat, to: nat) {
    from <= to <= |c| && to - from <= |buf| && buf[..to - from] == c[from..to]
  }

  /** A buffer that starts with the last bytes read from the file, which are still to be searched. */
  ghost predicate Carried(c: Text, buf: Text, pos: nat, last: nat) {
    && |buf| == BUFSIZE + 1 && last < BUFSIZE && last <= pos <= |c|
    && Begins(buf, c, pos - last, pos)
    && (buf[BUFSIZE] == NL ==> last == 0 || pos == |c|)
  }

  const OPEN_FAILED: string := "file open failed\n"
  const READ_FAILED: string := "file read failed\n"
  const CLOSE_FAILED: string := "file close failed\n"

  /** The value of a byte read through a signed char. */
  function Signed(b: Byte): int {
    if b < 128 then b else b - 256
  }

  class Search {
    const content: Text
    const readable: nat
    const name: Text
    const pattern: Text
    var pos: nat
    var out: Text

    constructor (content: Text, readable: nat, name: Text, pattern: Text)
      ensures this.content == content && this.readable == readable && this.name == name && this.pattern == pattern
      ensures pos == 0 && out == []
    {
      this.content, this.readable, this.name, this.pattern := content, readable, name, pattern;
      pos, out := 0, [];
    }

    /** The first k pieces were dealt with when a read failed. */
    ghost predicate StoppedAfter(before: Text, now: Text, pieces: seq<Text>, k: nat) {
      k <= |pieces| && now == before + Output(name, pattern, pieces[..k]) + AsBytes(READ_FAILED)
    }

    /** read: as many bytes as asked for and left in the file, or -1 if they cannot all be read. */
    method Read(data: array<Byte>, at: nat, n: nat) returns (cnt: int)
      requires at + n <= data.Length && pos <= |content|
      modifies this`pos, data
      ensures var m := Min(n, |content| - old(pos));
        if old(pos) + m <= readable
        then cnt == m && pos == old(pos) + m && data[..] == Patched(old(data[..]), at, content[old(pos)..pos])
        else cnt == -1 && pos == old(pos) && data[..] == old(data[..])
    {
      var m := Min(n, |content| - pos);
      if pos + m > readable {
        return -1;
      }
      forall i | 0 <= i < m {
        data[at + i] := content[pos + i];
      }
      pos := pos + m;
      cnt := m;
    }

    /** ece391_strncmp of the text at a position of the buffer with the whole pattern. */
    method Strncmp(data: array<Byte>, at: nat, ghost stop: nat) returns (r: int)
      requires at <= stop < data.Length && data[stop] == NUL && NulFree(pattern)
      ensures r == 0 <==> exists b: Text :: data[at..stop] == pattern + b
    {
      ghost var line := data[at..stop];
      if pattern == [] {
        assert line == pattern + line;
        return 0;
      }
      var i := 0;
      while data[at + i] == pattern[i]
        invariant 0 <= i < |pattern| && at + i <= stop
        invariant line[..i] == pattern[..i]
        decreases |pattern| - i
      {
        assert data[at + i] != NUL && at + i < stop && line[i] == pattern[i];
        assert line[..i + 1] == line[..i] + [line[i]] && pattern[..i + 1] == pattern[..i] + [pattern[i]];
        i := i + 1;
        if i == |pattern| {
          assert line == pattern + line[i..];
          return 0;
        }
      }
      DiffersAt(pattern, line, i);
      r := data[at + i] as int - pattern[i] as int;
    }

    /** ece391_strcpy towards the front of the same buffer: the bytes up to the first NUL, and that. */
    method CopyDown(data: array<Byte>, src: nat, ghost stop: nat) returns (ghost n: nat)
      requires 0 < src <= stop < data.Length && data[stop] == NUL
      modifies data
      ensures n == |CString(old(data[src..stop]))|
      ensures src + n <= stop && data[..n] == old(data[src..src + n]) && data[n] == NUL
      ensures forall i :: n < i < data.Length ==> data[i] == old(data[i])
    {
      hide CString;
      var i := 0;
      ghost var s := data[src..stop];
      while data[src + i] != NUL
        invariant 0 <= i <= stop - src
        invariant forall k :: 0 <= k < i ==> data[k] == old(data[src + k]) && s[k] != NUL
        invariant forall k :: i <= k < data.Length ==> data[k] == old(data[k])
        decreases stop - src - i
      {
        data[i] := data[src + i];
        i := i + 1;
      }
      data[i] := data[src + i];
      CStringLength(s, i);
      hide NulFree;
      return i;
    }

    /** ece391_fdputs of the text at a position of the buffer. */
    method Fdputs(data: array<Byte>, at: nat, ghost stop: nat)
      requires at <= stop < data.Length && data[stop] == NUL
      modifies this`out
      ensures out == old(out) + CString(data[at..stop])
    {
      hide CString;
      var i := 0;
      ghost var s := data[at..stop];
      while data[at + i] != NUL
        invariant 0 <= i <= stop - at
        invariant forall k :: 0 <= k < i ==> s[k] != NUL
        decreases stop - at - i
      {
        i := i + 1;
      }
      CStringLength(s, i);
      out := out + data[at..at + i];
      assert data[at..at + i] == s[..i];
    }

    /** Search one line, which ends in a NUL, and print it if the pattern occurs in it. */
    method SearchLine(data: array<Byte>, start: nat, end: nat)
      requires start <= end < data.Length && data[end] == NUL && NulFree(pattern)
      modifies this`out
      ensures out == old(out) + Output(name, pattern, [data[start..end]])
    {
      hide Output, NulFree, At, Hit, Printed, CString;
      ghost var line := data[start..end];
      OutputOne(name, pattern, line);
      var check := start;
      while check < end
        invariant start <= check <= end && out == old(out)
        invariant forall k: nat :: k < check - start ==> !Starts(pattern, line, k)
      {
        LineAt(data[..], start, end, check);
        if Signed(if pattern == [] then NUL else pattern[0]) == data[check] {
          var r := Strncmp(data, check, end);
          StartsIff(pattern, line, check - start);
          AtFrontIff(pattern, line[check - start..]);
          if r == 0 {
            HitHere(pattern, line, check - start);
            out := out + name + [58];
            Fdputs(data, start, end);
            out := out + [NL];
            PrintedIs(old(out), name, line);
            return;
          }
        } else {
          StartsIff(pattern, line, check - start);
        }
        check := check + 1;
      }
      NoHitHere(pattern, line);
    }

    /**
      The inner loop: search every line that ends in the window, and carry the last one
      over unless the file ends there or it fills the window. What is carried over is whole
      if it has no NUL.
     */
    method ScanWindow(data: array<Byte>, last0: nat, cnt: nat, ghost seg: Text) returns (last: nat, ghost done: seq<Text>)
      requires data.Length == BUFSIZE + 1 && last0 <= BUFSIZE && last0 <= |seg|
      requires Begins(data[..], seg, 0, last0) && NulFree(pattern)
      requires last0 == |seg| || (last0 == BUFSIZE && data[BUFSIZE] != NL)
      requires if cnt > 0 then last0 > 0 else last0 == |seg|
      modifies this`out, data
      ensures last < BUFSIZE && last <= last0 && (cnt == 0 ==> last == 0)
      ensures NulFree(seg[last0 - last..last0]) ==> Begins(data[..], seg, last0 - last, last0)
      ensures Pieces(seg) == done + PiecesFrom(seg, last0 - last)
      ensures out == old(out) + Output(name, pattern, done)
      ensures last0 == BUFSIZE && old(data[BUFSIZE]) == NL ==> last == 0
      ensures data[BUFSIZE] == NL <==> old(data[BUFSIZE]) == NL && !(last0 == BUFSIZE && seg[BUFSIZE - 1] != NL)
    {
      hide Pieces, PiecesFrom, Output, NulFree, CString;
      var start := 0;
      done := [];
      PiecesStart(seg);
      OutputNone(name, pattern);
      while true
        invariant 0 <= start && (start < last0 || (start == 0 && last0 == 0))
        invariant forall i :: start <= i < last0 ==> data[i] == seg[i]
        invariant Pieces(seg) == done + PiecesFrom(seg, start)
        invariant out == old(out) + Output(name, pattern, done)
        invariant data[BUFSIZE] == old(data[BUFSIZE])
        decreases last0 - start
      {
        var end := start;
        while end < last0 && data[end] != NL
          invariant start <= end <= last0
          invariant forall i :: start <= i < end ==> seg[i] != NL
        {
          end := end + 1;
        }
        ghost var line := seg[start..end];
        SameSlice(data[..], seg, start, end);
        if data[end] != NL && cnt != 0 && start != 0 {
          assert end == last0;
          data[end] := NUL;
          assert data[start..end] == line;
          ghost var n := CopyDown(data, start, end);
          CarriedWhole(line, n);
          last := last0 - start;
          return;
        }
        data[end] := NUL;
        assert data[start..end] == line;
        SearchLine(data, start, end);
        if start < last0 {
          OutputAppend(name, pattern, done, [line]);
          PieceTaken(seg, done, start, end, last0);
          done := done + [line];
        } else {
          OutputOne(name, pattern, line);
          NoHitInEmpty(pattern);
        }
        start := end + 1;
        if start >= last0 {
          last := 0;
          assert end < last0 ==> end + 1 == last0;
          return;
        }
      }
    }

    /** What holds between two passes for every file: the buffer and the file are within bounds. */
    ghost predicate InBounds(data: array<Byte>, last: nat)
      reads this
    {
      && data.Length == BUFSIZE + 1 && NulFree(pattern)
      && last < BUFSIZE && last <= pos <= |content| && pos <= readable
    }

    /** For a file without NULs the buffer starts with the bytes read but not yet searched. */
    ghost predicate Between(data: array<Byte>, last: nat)
      reads this, data
    {
      InBounds(data, last) && NulFree(content) && Carried(content, data[..], pos, last)
    }

    /** The pieces still to be searched. */
    ghost function Remaining(data: array<Byte>, last: nat): seq<Text>
      reads this, data
      requires Between(data, last)
    {
      ExpectedFrom(content, pos - last, data[BUFSIZE] == NL)
    }

    /** The read of one pass: the window now starts with the next bytes of the file not yet searched. */
    method Fill(data: array<Byte>, last0: nat) returns (cnt: int)
      requires InBounds(data, last0)
      modifies this`pos, data
      ensures cnt == -1 ==> |content| > readable
      ensures cnt != -1 ==>
        && cnt >= 0 && pos == old(pos) + cnt && pos <= |content| && pos <= readable
        && cnt == Min(BUFSIZE - last0, |content| - old(pos))
        && data[BUFSIZE] == old(data[BUFSIZE])
        && (old(Carried(content, data[..], pos, last0)) ==> Begins(data[..], content, old(pos) - last0, pos))
    {
      hide Patched, Begins, NulFree;
      ghost var p, before := pos, data[..];
      cnt := Read(data, last0, BUFSIZE - last0);
      if cnt != -1 {
        WindowFilled(content, p, last0, cnt, before, data[..]);
      }
    }

    /**
      One turn of the outer loop: a read and the search of what the window then holds. For
      every file it stays within bounds and prints lines that match.
     */
    method OnePass(data: array<Byte>, last0: nat) returns (cnt: int, last: nat, ghost done: seq<Text>)
      requires InBounds(data, last0)
      modifies this`pos, this`out, data
      ensures cnt == -1 || cnt >= 0
      ensures cnt == -1 ==> |content| > readable && out == old(out)
      ensures cnt >= 0 ==> InBounds(data, last) && pos == old(pos) + cnt && out == old(out) + Output(name, pattern, done)
      ensures cnt == 0 ==> last == 0 && pos == |content|
      ensures cnt >= 0 && old(Between(data, last0)) ==>
        Between(data, last) && old(Remaining(data, last0)) == done + Remaining(data, last)
    {
      hide Pieces, PiecesFrom, Output, ExpectedFrom, SegmentAt, NulFree, Carried, Begins;
      ghost var p, stale, intact := pos - last0, data[BUFSIZE] == NL, Between(data, last0);
      cnt := Fill(data, last0);
      last, done := last0, [];
      if cnt == -1 {
        return;
      }
      last := last + cnt;
      ghost var window := last;
      if intact {
        SegmentWindow(content, p, stale, window, data[..]);
      } else {
        WindowOnly(data[..], window);
      }
      ghost var seg := if intact then SegmentAt(content, p, stale) else data[..window];
      last, done := ScanWindow(data, last, cnt, seg);
      if intact {
        NulFreeSlice(seg, window - last, window);
        PassEnds(content, p, stale, window, last, done, data[..]);
      }
    }

    /**
      do_one_file. The buffer is passed in with whatever it holds, as on a stack. For every
      file the loops end, stay inside the buffer and print lines that match, and the result
      tells whether all went well. For a file without NULs the only byte of the buffer that
      matters is the one past the window.
     */
    method DoOneFile(data: array<Byte>, opens: bool, closes: bool) returns (r: int, ghost done: seq<Text>)
      requires data.Length == BUFSIZE + 1 && pos == 0 && NulFree(pattern)
      modifies this, data
      ensures r == if opens && |content| <= readable && closes then 0 else -1
      ensures out == old(out) + Output(name, pattern, done) +
        (if !opens then AsBytes(OPEN_FAILED) else if |content| > readable then AsBytes(READ_FAILED)
         else if !closes then AsBytes(CLOSE_FAILED) else [])
      ensures !opens ==> done == []
      ensures opens && NulFree(content) ==>
        var all := Expected(content, old(data[BUFSIZE]) == NL);
        done <= all && (|content| <= readable ==> done == all)
      ensures opens && NulFree(content) && |content| <= readable ==>
        (out == old(out) + Output(name, pattern, Lines(content)) + (if closes then [] else AsBytes(CLOSE_FAILED))
         <==> PrintsLines(pattern, content, old(data[BUFSIZE]) == NL))
    {
      hide Pieces, Output, Expected, ExpectedFrom, AsBytes, PrintsLines, Lines, NulFree, Carried;
      done := [];
      OutputNone(name, pattern);
      if !opens {
        out := out + AsBytes(OPEN_FAILED);
        return -1, [];
      }
      ghost var all := Expected(content, data[BUFSIZE] == NL);
      var last := 0;
      NothingCarried(content, data[..]);
      ExpectedEnds(content, data[BUFSIZE] == NL);
      assert [] + all == all;
      while true
        invariant InBounds(data, last)
        invariant NulFree(content) ==> Between(data, last) && all == done + Remaining(data, last)
        invariant out == old(out) + Output(name, pattern, done)
        decreases |content| - pos
      {
        ghost var d;
        var cnt;
        ghost var rest := if NulFree(content) then Remaining(data, last) else [];
        cnt, last, d := OnePass(data, last);
        if cnt == -1 {
          out := out + AsBytes(READ_FAILED);
          return -1, done;
        }
        OutputAppend(name, pattern, done, d);
        if NulFree(content) {
          SeqAssoc(done, d, Remaining(data, last));
        }
        SeqAssoc(old(out), Output(name, pattern, done), Output(name, pattern, d));
        done := done + d;
        if cnt == 0 {
          break;
        }
      }
      ExpectedEnds(content, data[BUFSIZE] == NL);
      assert done + [] == done;
      if NulFree(content) {
        OutputPrintsLinesIff(old(out), name, pattern, content, old(data[BUFSIZE]) == NL, if closes then [] else AsBytes(CLOSE_FAILED));
      }
      if !closes {
        out := out + AsBytes(CLOSE_FAILED);
        return -1, done;
      }
      assert out + [] == out;
      return 0, done;
    }
  }

  lemma NulFreeSuffix(c: Text, a: nat)
    requires NulFree(c) && a <= |c|
    ensures NulFree(c[a..])
  {
  }

  lemma NulFreeSlice(c: Text, a: nat, b: nat)
    requires NulFree(c) && a <= b <= |c|
    ensures NulFree(c[a..b]) && forall i :: a <= i < b ==> c[i] != NUL
  {
  }

  lemma SameSlice(s: Text, t: Text, a: nat, b: nat)
    requires a <= b <= |s| && b <= |t| && forall i :: a <= i < b ==> s[i] == t[i]
    ensures s[a..b] == t[a..b]
  {
  }

  /** After a read the buffer starts with what was carried over and what was read. */
  lemma WindowFilled(c: Text, p: nat, last: nat, cnt: nat, before: Text, now: Text)
    requires last <= p && p + cnt <= |c| && last + cnt < |before| == BUFSIZE + 1
    requires now == Patched(before, last, c[p..p + cnt])
    ensures Carried(c, before, p, last) ==> Begins(now, c, p - last, p + cnt)
    ensures now[BUFSIZE] == before[BUFSIZE]
  {
  }

  lemma SuffixOf(c: Text, a: nat, b: nat)
    requires a + b <= |c|
    ensures c[a..][b..] == c[a + b..]
  {
  }

  lemma SliceOf(c: Text, a: nat, b: nat, e: nat)
    requires b <= e && a + e <= |c|
    ensures c[a..][b..e] == c[a + b..a + e]
  {
  }

  lemma OutputNone(name: Text, p: Text)
    ensures Output(name, p, []) == []
  {
  }

  lemma ExpectedEnds(c: Text, stale: bool)
    ensures ExpectedFrom(c, 0, stale) == Expected(c, stale) && ExpectedFrom(c, |c|, stale) == []
  {
    assert c[0..] == c && c[|c|..] == [];
  }

  /** The piece that ends at end: at a newline, at the end of the window or at the end of the text. */
  lemma PieceTaken(seg: Text, done: seq<Text>, start: nat, end: nat, last: nat)
    requires start <= end <= last <= |seg| && last <= BUFSIZE && start < last
    requires Pieces(seg) == done + PiecesFrom(seg, start)
    requires forall i :: start <= i < end ==> seg[i] != NL
    requires if end < last then seg[end] == NL else last == |seg| || (last == BUFSIZE && start == 0)
    ensures Pieces(seg) == done + [seg[start..end]] + PiecesFrom(seg, if end < last then end + 1 else last)
  {
    hide Pieces, PiecesFrom;
    NextPiece(seg, start, end, last);
    SeqAssoc(done, [seg[start..end]], PiecesFrom(seg, if end < last then end + 1 else last));
  }

  lemma NextPiece(seg: Text, start: nat, end: nat, last: nat)
    requires start <= end <= last <= |seg| && last <= BUFSIZE && start < last
    requires forall i :: start <= i < end ==> seg[i] != NL
    requires if end < last then seg[end] == NL else last == |seg| || (last == BUFSIZE && start == 0)
    ensures PiecesFrom(seg, start) == [seg[start..end]] + PiecesFrom(seg, if end < last then end + 1 else last)
  {
    hide Pieces;
    var c := seg[start..];
    if end < last {
      PiecesOfFirst(c, end - start);
      assert c[..end - start] == seg[start..end] && c[end - start + 1..] == seg[end + 1..];
    } else {
      PiecesOfRest(c, end - start);
      assert c[..end - start] == seg[start..end] && c[end - start..] == seg[last..];
    }
  }

  lemma PiecesStart(seg: Text)
    ensures Pieces(seg) == [] + PiecesFrom(seg, 0)
  {
    assert seg[0..] == seg;
  }

  lemma CarriedOver(seg: Text, rest: Text, last0: nat, last: nat)
    requires last <= last0 <= |rest| && last0 <= |seg| && seg[..last0] == rest[..last0]
    ensures seg[last0 - last..last0] == rest[last0 - last..last0]
  {
    assert seg[last0 - last..last0] == seg[..last0][last0 - last..];
    assert rest[last0 - last..last0] == rest[..last0][last0 - last..];
  }

  /** What a pass leaves, in terms of the file: the bytes carried over and the pieces still to come. */
  lemma PassEnds(c: Text, p: nat, stale: bool, window: nat, last: nat, done: seq<Text>, buf: Text)
    requires p <= |c| && window == Min(BUFSIZE, |c| - p) && |buf| == BUFSIZE + 1
    requires last < BUFSIZE && last <= window <= |SegmentAt(c, p, stale)|
    requires Begins(buf, SegmentAt(c, p, stale), window - last, window)
    requires Pieces(SegmentAt(c, p, stale)) == done + PiecesFrom(SegmentAt(c, p, stale), window - last)
    requires window == BUFSIZE && stale ==> last == 0
    requires buf[BUFSIZE] == NL <==> stale && !(window == BUFSIZE && SegmentAt(c, p, stale)[BUFSIZE - 1] != NL)
    ensures Carried(c, buf, p + window, last)
    ensures ExpectedFrom(c, p, stale) == done + ExpectedFrom(c, p + window - last, buf[BUFSIZE] == NL)
  {
    hide Pieces, Expected, Segment;
    var rest := c[p..];
    SegmentStart(rest, stale, window);
    CarriedOver(Segment(rest, stale), rest, window, last);
    SliceOf(c, p, window - last, window);
    SuffixOf(c, p, window - last);
    WindowStep(rest, stale, window, last, done, buf[BUFSIZE] == NL);
  }

  lemma SegmentStart(rest: Text, stale: bool, last: nat)
    requires last == Min(BUFSIZE, |rest|)
    ensures last <= |Segment(rest, stale)| && Segment(rest, stale)[..last] == rest[..last]
    ensures last == |Segment(rest, stale)| || (last == BUFSIZE && !stale)
    ensures NulFree(rest) ==> NulFree(Segment(rest, stale))
    ensures last == BUFSIZE ==> Segment(rest, stale)[BUFSIZE - 1] == rest[BUFSIZE - 1]
  {
  }

  /** What the window holds is the start of the text that it decides. */
  lemma SegmentWindow(c: Text, p: nat, stale: bool, last: nat, buf: Text)
    requires p <= |c| && last == Min(BUFSIZE, |c| - p) && NulFree(c)
    requires Begins(buf, c, p, p + last)
    ensures var seg := SegmentAt(c, p, stale);
      && last <= |seg| && Begins(buf, seg, 0, last) && NulFree(seg)
      && (last == |seg| || (last == BUFSIZE && !stale))
      && (last < BUFSIZE ==> p + last == |c|)
  {
    hide NulFree, Segment;
    NulFreeSuffix(c, p);
    SegmentStart(c[p..], stale, last);
    SliceOf(c, p, 0, last);
  }

  /** A window whose bytes are not those of the file is searched for its own sake. */
  lemma WindowOnly(buf: Text, window: nat)
    requires window <= |buf|
    ensures Begins(buf, buf[..window], 0, window)
  {
  }

  lemma NothingCarried(c: Text, buf: Text)
    requires |buf| == BUFSIZE + 1
    ensures Carried(c, buf, 0, 0)
  {
  }

  lemma {:induction false} CStringLength(s: Text, n: nat)
    requires n <= |s| && (n < |s| ==> s[n] == NUL) && forall k :: 0 <= k < n ==> s[k] != NUL
    ensures CString(s) == s[..n]
    decreases n
  {
    if n > 0 {
      CStringLength(s[1..], n - 1);
      assert s[..n] == [s[0]] + s[1..][..n - 1];
    }
  }

  lemma CarriedWhole(line: Text, n: nat)
    requires n == |CString(line)|
    ensures NulFree(line) ==> n == |line|
  {
    assert NulFree(line) ==> NUL !in line;
  }

  lemma LineAt(s: Text, start: nat, end: nat, check: nat)
    requires start <= check < end <= |s|
    ensures s[check..end] == s[start..end][check - start..] && s[check] == s[start..end][check - start]
  {
  }

  lemma PrintedIs(before: Text, name: Text, line: Text)
    ensures before + name + [58] + CString(line) + [NL] == before + Printed(name, line)
  {
  }

  /** The test of the search loop at a place: the first byte as a signed char, then the whole pattern. */
  predicate Starts(p: Text, line: Text, k: nat)
    requires k < |line|
  {
    Signed(if p == [] then NUL else p[0]) == line[k] && At(p, line, k)
  }

  lemma StartsIff(p: Text, line: Text, k: nat)
    requires k < |line|
    ensures Signed(if p == [] then NUL else p[0]) == line[k] ==> (Starts(p, line, k) <==> At(p, line[k..], 0))
    ensures Signed(if p == [] then NUL else p[0]) != line[k] ==> !Starts(p, line, k)
  {
    AtShift(p, line, k);
  }

  lemma HitHere(p: Text, line: Text, k: nat)
    requires k < |line| && Starts(p, line, k)
    ensures Hit(p, line)
  {
  }

  lemma NoHitHere(p: Text, line: Text)
    requires forall k: nat :: k < |line| ==> !Starts(p, line, k)
    ensures !Hit(p, line)
  {
    if p == [] {
      forall k | 0 <= k < |line| ensures line[k] != NUL {
        assert !Starts(p, line, k) && line[k..k] == [];
      }
    } else if p[0] < 128 {
      forall k: nat | k <= |line| ensures !At(p, line, k) {
        if k < |line| {
          AtStart(p, line, k);
          assert !Starts(p, line, k);
        }
      }
    }
  }

  lemma AtShift(p: Text, line: Text, k: nat)
    requires k <= |line|
    ensures At(p, line, k) <==> At(p, line[k..], 0)
  {
    if k + |p| <= |line| {
      assert line[k..][0..0 + |p|] == line[k..k + |p|];
    }
  }

  lemma DiffersAt(p: Text, line: Text, i: nat)
    requires i < |p| && (i < |line| ==> line[i] != p[i])
    ensures !exists b: Text :: line == p + b
  {
  }

  lemma AtFrontIff(p: Text, line: Text)
    ensures At(p, line, 0) <==> exists b: Text :: line == p + b
  {
    if At(p, line, 0) {
      assert line == p + line[|p|..];
    }
    if b: Text :| line == p + b {
      assert line[0..0 + |p|] == p;
    }
  }

  lemma AtStart(p: Text, line: Text, k: nat)
    requires p != [] && k < |line|
    ensures At(p, line, k) ==> line[k] == p[0]
  {
    if At(p, line, k) {
      assert line[k..k + |p|][0] == line[k];
    }
  }
}
