/**
  The character arrays behind the line editor of student-distrib/keyboard.c: a buffer with a
  cursor and a size, 16 history slots and a read buffer, all padded with NULs. Each key
  handler is proved to make the step of LineEditor.dfy for its key.
 */
module TerminalBuffer {
  import opened Machine
  import opened LineEditor

  /** A buffer that holds a line and nothing but NULs after it. */
  ghost predicate Holds(s: seq<Byte>, l: Line) {
    && |s| == BUFFER_SIZE && |l| < BUFFER_SIZE
    && (forall i :: 0 <= i < |l| ==> s[i] == l[i])
    && (forall i :: |l| <= i < BUFFER_SIZE ==> s[i] == 0)
  }

  /** strncpy of a whole buffer: up to the first NUL, then NULs. */
  method Strncpy(src: seq<Byte>, ghost l: Line) returns (dst: seq<Byte>)
    requires |src| == BUFFER_SIZE && |l| < BUFFER_SIZE && NulFree(l)
    requires (forall i :: 0 <= i < |l| ==> src[i] == l[i]) && src[|l|] == 0
    ensures Holds(dst, l)
  {
    var i := 0;
    dst := [];
    while src[i] != 0 && i < BUFFER_SIZE
      invariant 0 <= i <= |l| && |dst| == i
      invariant forall k :: 0 <= k < i ==> dst[k] == l[k]
      decreases |l| - i
    {
      dst := dst + [src[i]];
      i := i + 1;
    }
    while i < BUFFER_SIZE
      invariant |l| <= i <= BUFFER_SIZE && |dst| == i
      invariant forall k :: 0 <= k < |l| ==> dst[k] == l[k]
      invariant forall k :: |l| <= k < i ==> dst[k] == 0
    {
      dst := dst + [0];
      i := i + 1;
    }
  }

  /** Testing the byte before the index does no harm: the sizes of lines have a high byte of zero. */
  lemma SizeIsNoSpace(size: nat)
    requires size <= BUFFER_SIZE - 2
    ensures HighByte(size) != SPACE
  {
    DivModUnique(size, 0, size, 0x100_0000);
  }

  /** The last byte of a 32-bit number stored lowest byte first. */
  function HighByte(n: nat): Byte {
    n / 0x100_0000 % 256
  }

  /** The array after a character has been put in at the cursor. */
  lemma TypedHolds(b: Line, a: Line, c: Byte, s: seq<Byte>)
    requires |s| == BUFFER_SIZE && |b + a| + 1 < BUFFER_SIZE
    requires forall k :: 0 <= k < |b| ==> s[k] == (b + a)[k]
    requires s[|b|] == c
    requires forall k :: |b| < k <= |b + a| ==> s[k] == (b + a)[k - 1]
    requires forall k :: |b + a| < k < BUFFER_SIZE ==> s[k] == 0
    ensures Holds(s, b + [c] + a)
  {
    var t := b + [c] + a;
    assert forall k :: |b| < k < |t| ==> t[k] == (b + a)[k - 1];
  }

  lemma RecalledProper(e: Editor, i: nat)
    requires LineEditor.Valid(e) && i <= |e.history|
    ensures Proper(Recalled(e.history, i))
  {
  }

  /** strlen of a buffer. */
  method Strlen(buf: array<Byte>, ghost l: Line) returns (n: nat)
    requires Holds(buf[..], l) && NulFree(l)
    ensures n == |l|
  {
    n := 0;
    while buf[n] != 0
      invariant 0 <= n <= |l|
      decreases |l| - n
    {
      n := n + 1;
    }
  }

  class Terminal {
    const buffer: array<Byte>
    const readBuffer: array<Byte>
    const history: array<seq<Byte>>
    var pos: nat
    var size: nat
    var historySize: nat
    var historyCurr: nat
    var readFlag: bool
    ghost var e: Editor

    ghost predicate Slots()
      reads this, history
    {
      && history.Length == MAX_HISTORY
      && historySize == |e.history| <= MAX_HISTORY
      && (forall i :: 0 <= i < historySize ==> Holds(history[i], e.history[i]))
      && (forall i :: historySize <= i < MAX_HISTORY ==> Holds(history[i], []))
    }

    ghost predicate Edited()
      reads this, buffer
    {
      && buffer.Length == BUFFER_SIZE
      && pos == |e.before| && size == |e.before| + |e.after|
      && Holds(buffer[..], e.before + e.after)
    }

    ghost predicate Valid()
      reads this, buffer, readBuffer, history
    {
      && buffer != readBuffer
      && LineEditor.Valid(e) && Edited() && Slots()
      && historyCurr == e.at && readFlag == e.ready
      && Holds(readBuffer[..], e.delivery)
    }

    /** init_terminals, with memory that kmalloc has zeroed. */
    constructor ()
      ensures Valid() && e == Fresh
    {
      buffer := new Byte[BUFFER_SIZE](_ => 0);
      readBuffer := new Byte[BUFFER_SIZE](_ => 0);
      var empty: seq<Byte> := seq(BUFFER_SIZE, _ => 0);
      history := new seq<Byte>[MAX_HISTORY](_ => empty);
      pos, size, historySize, historyCurr, readFlag := 0, 0, 0, 0, false;
      e := Fresh;
    }

    /** The loop that moves what is after the cursor up by one. */
    method ShiftUp(ghost t: Line)
      requires buffer.Length == BUFFER_SIZE && size == |t| && pos <= size && |t| + 1 < BUFFER_SIZE && Holds(buffer[..], t)
      modifies buffer
      ensures forall k :: 0 <= k < pos ==> buffer[k] == t[k]
      ensures forall k :: pos < k <= size ==> buffer[k] == t[k - 1]
      ensures forall k :: size < k < BUFFER_SIZE ==> buffer[k] == 0
    {
      var i := size;
      while i > pos
        invariant pos <= i <= size
        invariant forall k :: 0 <= k < i ==> buffer[k] == t[k]
        invariant forall k :: i < k <= size ==> buffer[k] == t[k - 1]
        invariant forall k :: size < k < BUFFER_SIZE ==> buffer[k] == 0
      {
        buffer[i] := buffer[i - 1];
        i := i - 1;
      }
    }

    method PressType(c: Byte)
      requires Valid()
      modifies this, buffer
      ensures Valid() && e == Press(old(e), Type(c))
    {
      PressKeeps(e, Type(c));
      assert |e.before + e.after| <= BUFFER_SIZE - 2;
      hide LineEditor.Valid, Slots, NulFree, Holds;
      if size + 1 < BUFFER_SIZE - 1 && c != 0 {
        ShiftUp(e.before + e.after);
        buffer[pos] := c;
        TypedHolds(e.before, e.after, c, buffer[..]);
        pos := pos + 1;
        size := size + 1;
        e := Press(e, Type(c));
      }
    }

    method PressBackspace()
      requires Valid()
      modifies this, buffer
      ensures Valid() && e == Press(old(e), Backspace)
    {
      PressKeeps(e, Backspace);
      hide LineEditor.Valid;
      if pos > 0 {
        ghost var t := e.before + e.after;
        assert |t| <= BUFFER_SIZE - 2;
        size := size - 1;
        pos := pos - 1;
        var i := pos;
        while i <= size + 1
          modifies buffer
          invariant pos <= i <= size + 2
          invariant forall k :: 0 <= k < pos ==> buffer[k] == t[k]
          invariant forall k :: pos <= k < i ==> buffer[k] == if k + 1 < |t| then t[k + 1] else 0
          invariant forall k :: i <= k < BUFFER_SIZE ==> buffer[k] == if k < |t| then t[k] else 0
        {
          buffer[i] := buffer[i + 1];
          i := i + 1;
        }
        e := Press(e, Backspace);
        assert forall k :: 0 <= k < size ==> buffer[k] == (e.before + e.after)[k];
      }
    }

    method PressLeft()
      requires Valid()
      modifies this
      ensures Valid() && e == Press(old(e), Left)
    {
      PressKeeps(e, Left);
      CursorKeepsText(e, Left);
      hide LineEditor.Valid;
      if pos > 0 {
        pos := pos - 1;
        e := Press(e, Left);
      }
    }

    method PressRight()
      requires Valid()
      modifies this
      ensures Valid() && e == Press(old(e), Right)
    {
      PressKeeps(e, Right);
      CursorKeepsText(e, Right);
      hide LineEditor.Valid;
      if pos < size {
        pos := pos + 1;
        e := Press(e, Right);
      }
    }

    method PressHome()
      requires Valid()
      modifies this
      ensures Valid() && e == Press(old(e), Home)
    {
      PressKeeps(e, Home);
      CursorKeepsText(e, Home);
      hide LineEditor.Valid;
      pos := 0;
      e := Press(e, Home);
    }

    method PressKill()
      requires Valid()
      modifies this, buffer
      ensures Valid() && e == Press(old(e), Kill)
    {
      PressKeeps(e, Kill);
      ghost var t := e.before + e.after;
      assert |t| <= BUFFER_SIZE - 2;
      hide LineEditor.Valid;
      var i := pos;
      while i <= size
        modifies buffer
        invariant pos <= i <= size + 1
        invariant forall k :: 0 <= k < pos ==> buffer[k] == t[k]
        invariant forall k :: pos <= k < i ==> buffer[k] == 0
        invariant forall k :: i <= k < BUFFER_SIZE ==> buffer[k] == if k < |t| then t[k] else 0
      {
        buffer[i] := 0;
        i := i + 1;
      }
      size := pos;
      e := Press(e, Kill);
      assert e.before + e.after == t[..pos];
    }

    /** The first part of handle_enter: the line goes into the history, and the oldest one out of a full one. */
    method PushHistory(ghost t: Line)
      requires Slots() && Proper(t) && Holds(buffer[..], t) && forall i :: 0 <= i < |e.history| ==> Proper(e.history[i])
      modifies this`historySize, this`e, history
      ensures Slots() && e == old(e).(history := Push(old(e).history, t))
    {
      ghost var h := e.history;
      assert forall i :: 0 <= i < |h| ==> NulFree(h[i]) && |h[i]| < BUFFER_SIZE;
      hide NulFree;
      if historySize == MAX_HISTORY {
        var i := 0;
        while i < MAX_HISTORY - 1
          modifies history
          invariant 0 <= i <= MAX_HISTORY - 1
          invariant forall k :: 0 <= k < i ==> Holds(history[k], h[k + 1])
          invariant forall k :: i <= k < MAX_HISTORY ==> Holds(history[k], h[k])
        {
          var line := Strncpy(history[i + 1], h[i + 1]);
          history[i] := line;
          i := i + 1;
        }
        historySize := historySize - 1;
      }
      var line := Strncpy(buffer[..], t);
      history[historySize] := line;
      historySize := historySize + 1;
      e := e.(history := Push(h, t));
    }

    /**
      The byte that keyboard_buffer[i] names. The size is stored in front of the buffer, so
      that index -1 is its high byte.
     */
    function ByteAt(i: int): Byte
      requires buffer.Length == BUFFER_SIZE && -1 <= i < BUFFER_SIZE
      reads this`size, buffer
    {
      if i == -1 then HighByte(size) else buffer[i]
    }

    /**
      The second part: a newline at the end, trailing spaces cut off, and what is left handed
      to readers. The byte is tested before the index, so the loop may look at index -1.
     */
    method Deliver(ghost t: Line)
      requires buffer.Length == BUFFER_SIZE && readBuffer.Length == BUFFER_SIZE && buffer != readBuffer
      requires Proper(t) && Holds(buffer[..], t) && size == |t|
      modifies buffer, readBuffer
      ensures Holds(readBuffer[..], Delivery(t))
    {
      buffer[size] := NL;
      var i := size - 1;
      ghost var n := TrailingSpaces(t);
      SizeIsNoSpace(size);
      while ByteAt(i) == SPACE && i >= 0
        modifies buffer
        invariant size - 1 - n <= i < size
        invariant forall k :: 0 <= k <= i ==> buffer[k] == t[k]
        invariant forall k :: i < k < size ==> buffer[k] == 0
        invariant buffer[size] == NL
        invariant forall k :: size < k < BUFFER_SIZE ==> buffer[k] == 0
      {
        buffer[i] := 0;
        i := i - 1;
      }
      assert i == size - 1 - n;
      DeliveryProper(t);
      var line := Strncpy(buffer[..], Delivery(t));
      forall k | 0 <= k < BUFFER_SIZE {
        readBuffer[k] := line[k];
      }
    }

    method ClearBuffer()
      requires buffer.Length == BUFFER_SIZE
      modifies buffer
      ensures Holds(buffer[..], [])
    {
      var i := 0;
      while i < BUFFER_SIZE
        invariant 0 <= i <= BUFFER_SIZE
        invariant forall k :: 0 <= k < i ==> buffer[k] == 0
      {
        buffer[i] := 0;
        i := i + 1;
      }
    }

    method PressEnter()
      requires Valid()
      modifies this, buffer, readBuffer, history
      ensures Valid() && e == Press(old(e), Enter)
    {
      PressKeeps(e, Enter);
      ghost var e0, t := e, e.before + e.after;
      hide Delivery, NulFree;
      PushHistory(t);
      historyCurr := historySize;
      Deliver(t);
      ClearBuffer();
      pos, size, readFlag := 0, 0, true;
      e := Press(e0, Enter);
      assert e.before + e.after == [];
    }

    /**
      history_move. When it asks for a slot past the end of the history array, past is set, and
      what the buffer then holds is not modelled.
     */
    method PressRecall(offset: int) returns (past: bool)
      requires Valid()
      modifies this, buffer
      ensures past <==> Outside(old(e), Recall(offset))
      ensures !past ==> Valid() && e == Press(old(e), Recall(offset))
    {
      hide LineEditor.Valid, Holds, NulFree;
      OutsideIff(e, Recall(offset));
      past := false;
      var i := historyCurr + offset;
      if 0 <= i <= historySize {
        ClearBuffer();
        if i >= history.Length {
          return true;
        }
        PressKeeps(e, Recall(offset));
        ghost var l := Recalled(e.history, i);
        RecalledProper(e, i);
        CopySlot(i, l);
        var n := Strlen(buffer, l);
        pos, size, historyCurr := n, n, i;
        e := Press(e, Recall(offset));
        assert e.before + e.after == l;
      } else {
        PressKeeps(e, Recall(offset));
      }
    }

    /** strncpy of a history slot into the buffer. */
    method CopySlot(i: nat, ghost l: Line)
      requires buffer.Length == BUFFER_SIZE && i < history.Length && Holds(history[i], l) && NulFree(l)
      modifies buffer
      ensures Holds(buffer[..], l)
    {
      var line := Strncpy(history[i], l);
      forall k | 0 <= k < BUFFER_SIZE {
        buffer[k] := line[k];
      }
      assert buffer[..] == line;
    }

    /** keyboard_read once there is a line: as much of it as fits, padded with NULs. */
    method KeyboardRead(buf: array<Byte>, nbytes: int) returns (count: nat)
      requires Valid() && readFlag && nbytes <= buf.Length
      requires buf != buffer && buf != readBuffer
      modifies this`readFlag, this`e, buf
      ensures Valid() && e == old(e).(ready := false)
      ensures count == if nbytes < 0 then 0 else Min(|e.delivery|, nbytes)
      ensures count <= |e.delivery| && count <= buf.Length && buf[..count] == e.delivery[..count]
      ensures forall k :: count <= k < nbytes ==> buf[k] == 0
    {
      var i := 0;
      ghost var l := e.delivery;
      while readBuffer[i] != 0 && i < nbytes
        modifies buf
        invariant 0 <= i <= |l| && (i <= nbytes || i == 0)
        invariant forall k :: 0 <= k < i ==> buf[k] == l[k]
        decreases |l| - i
      {
        buf[i] := readBuffer[i];
        i := i + 1;
      }
      count := i;
      while i < nbytes
        modifies buf
        invariant count <= i && (i <= nbytes || i == count)
        invariant forall k :: 0 <= k < count ==> buf[k] == l[k]
        invariant forall k :: count <= k < i ==> buf[k] == 0
      {
        buf[i] := 0;
        i := i + 1;
      }
      readFlag := false;
      e := e.(ready := false);
    }
  }
}
