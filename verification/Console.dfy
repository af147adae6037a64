/** The text console: an 80 by 25 cell buffer scrolled in place, and the unbounded
    terminal it is a window on. */
module Console {

  const COLS: nat := 80
  const ROWS: nat := 25
  const CELLS: nat := 2000
  const NEWLINE: nat := 10
  const TAB: nat := 9
  const BACKSPACE: nat := 8
  const SPACE: nat := 32
  const ATTRIBUTE: nat := 0x0F

  // ----- the unbounded terminal

  /** A sheet of rows without end: what has been written where, the cursor, and the
      lowest row the cursor has reached. */
  datatype Terminal = Terminal(sheet: map<nat, nat>, pos: nat, low: nat) {
    function Cell(i: nat): nat { if i in sheet then sheet[i] else SPACE }
    /** The first row of the window: the lowest row is never out of view. */
    function Top(): nat { if low < ROWS then 0 else low - (ROWS - 1) }
  }

  const BLANK: Terminal := Terminal(map[], 0, 0)

  function Moved(t: Terminal, pos: nat): Terminal {
    t.(pos := pos, low := if pos / COLS > t.low then pos / COLS else t.low)
  }

  /** One character: newline goes to the start of the next row; backspace erases
      backwards but not past the top of the window; anything else is written. */
  function Typed(t: Terminal, c: nat): Terminal {
    if c == NEWLINE then Moved(t, (t.pos / COLS + 1) * COLS)
    else if c == BACKSPACE then
      var p := if t.pos > t.Top() * COLS then t.pos - 1 else t.pos;
      t.(sheet := t.sheet[p := SPACE], pos := p)
    else Moved(t.(sheet := t.sheet[t.pos := c]), t.pos + 1)
  }

  function Spaces(t: Terminal, n: nat): Terminal {
    if n == 0 then t else Typed(Spaces(t, n - 1), SPACE)
  }

  /** A byte: a tab is four spaces. */
  function Put(t: Terminal, b: nat): Terminal {
    if b == TAB then Spaces(t, 4) else Typed(t, b)
  }

  function PutAll(t: Terminal, s: seq<nat>): Terminal {
    if s == [] then t else Put(PutAll(t, s[..|s| - 1]), s[|s| - 1])
  }

  // ----- the window

  /** The cursor is in the window, and nothing is written below the lowest row. */
  ghost predicate Sound(t: Terminal) {
    && t.Top() * COLS <= t.pos < (t.Top() + ROWS) * COLS
    && t.pos / COLS <= t.low
    && forall i :: i in t.sheet && i / COLS > t.low ==> t.sheet[i] == SPACE
  }

  /** The buffer shows the window. */
  ghost predicate Shows(fb: seq<nat>, t: Terminal) {
    && |fb| == 2 * CELLS
    && forall i :: 0 <= i < CELLS ==> fb[2 * i] == t.Cell(t.Top() * COLS + i) && fb[2 * i + 1] == ATTRIBUTE
  }

  lemma TypedSound(t: Terminal, c: nat)
    requires Sound(t)
    ensures Sound(Typed(t, c))
  {
  }

  lemma {:induction false} SpacesSound(t: Terminal, n: nat)
    requires Sound(t)
    ensures Sound(Spaces(t, n))
  {
    hide Sound, Typed;
    if n == 0 {
    } else {
      SpacesSound(t, n - 1);
      TypedSound(Spaces(t, n - 1), SPACE);
    }
  }

  lemma PutSound(t: Terminal, b: nat)
    requires Sound(t)
    ensures Sound(Put(t, b))
  {
    hide Sound, Typed;
    SpacesSound(t, 4);
    TypedSound(t, b);
  }

  function WithCell(fb: seq<nat>, i: nat, c: nat): seq<nat>
    requires |fb| == 2 * CELLS && i < CELLS
  {
    fb[2 * i := c][2 * i + 1 := ATTRIBUTE]
  }

  /** Writing the cell under the cursor. */
  lemma WriteShown(fb: seq<nat>, t: Terminal, p: nat, c: nat)
    requires Sound(t) && Shows(fb, t) && t.Top() * COLS <= p < (t.Top() + ROWS) * COLS
    ensures Shows(WithCell(fb, p - t.Top() * COLS, c), t.(sheet := t.sheet[p := c]))
  {
  }

  /** The buffer moved up by one row, with a blank row at the bottom. */
  ghost predicate Scrolled(fb: seq<nat>, fb': seq<nat>) {
    && |fb| == |fb'| == 2 * CELLS
    && forall i :: 0 <= i < CELLS ==>
         fb'[2 * i + 1] == ATTRIBUTE && fb'[2 * i] == if i < CELLS - COLS then fb[2 * (i + COLS)] else SPACE
  }

  /** Moving the cursor inside the window shows the same window. */
  lemma MoveShown(fb: seq<nat>, t: Terminal, p: nat)
    requires Sound(t) && Shows(fb, t) && t.pos <= p < (t.Top() + ROWS) * COLS
    ensures Moved(t, p).Top() == t.Top() && Shows(fb, Moved(t, p)) && Sound(Moved(t, p))
  {
  }

  /** Moving the cursor to the row below the window scrolls it by one row. */
  lemma ScrollShown(fb: seq<nat>, fb': seq<nat>, t: Terminal)
    requires Sound(t) && Shows(fb, t) && Scrolled(fb, fb')
    ensures
      var t' := Moved(t, (t.Top() + ROWS) * COLS);
      t'.Top() == t.Top() + 1 && Shows(fb', t') && Sound(t')
  {
    var t' := Moved(t, (t.Top() + ROWS) * COLS);
    var top := t.Top();
    assert t'.low == top + ROWS && t'.Top() == top + 1;
    forall i | 0 <= i < CELLS ensures fb'[2 * i] == t'.Cell(t'.Top() * COLS + i) {
      var j := t'.Top() * COLS + i;
      assert t'.sheet == t.sheet;
      if i < CELLS - COLS {
        assert j == top * COLS + (i + COLS);
        assert fb[2 * (i + COLS)] == t.Cell(j);
      } else {
        assert j / COLS == top + ROWS;
        assert j in t.sheet ==> t.sheet[j] == SPACE;
      }
    }
  }

  class Console {
    const fb: array<nat>
    var cursor: nat
    ghost var term: Terminal

    ghost predicate Valid()
      reads this, fb
    {
      && fb.Length == 2 * CELLS
      && Sound(term)
      && Shows(fb[..], term)
      && cursor == term.pos - term.Top() * COLS
    }

    constructor (fb: array<nat>)
      requires fb.Length == 2 * CELLS
      ensures this.fb == fb
    {
      this.fb := fb;
      cursor := 0;
      term := BLANK;
    }

    method WriteCell(i: nat, c: nat)
      requires fb.Length == 2 * CELLS && i < CELLS
      modifies fb
      ensures fb[..] == WithCell(old(fb[..]), i, c)
    {
      fb[2 * i] := c;
      fb[2 * i + 1] := ATTRIBUTE;
    }

    /** The first `n` cells hold what was one row further down. */
    ghost predicate MovedUp(was: seq<nat>, n: nat)
      requires |was| == fb.Length == 2 * CELLS && n <= CELLS - COLS
      reads fb
    {
      && (forall i :: 0 <= i < n ==> fb[2 * i] == was[2 * (i + COLS)] && fb[2 * i + 1] == ATTRIBUTE)
      && (forall i :: 2 * n <= i < 2 * CELLS ==> fb[i] == was[i])
    }

    method Scroll()
      requires fb.Length == 2 * CELLS
      modifies fb
      ensures Scrolled(old(fb[..]), fb[..])
    {
      ghost var was := fb[..];
      var r := 1;
      while r < ROWS
        invariant 1 <= r <= ROWS && MovedUp(was, (r - 1) * COLS)
      {
        var c := 0;
        while c < COLS
          invariant 0 <= c <= COLS && MovedUp(was, (r - 1) * COLS + c)
        {
          CopyUp((r - 1) * COLS + c, was);
          c := c + 1;
        }
        r := r + 1;
      }
      BlankLastRow();
    }

    /** Copies one cell to the row above it. */
    method CopyUp(i: nat, ghost was: seq<nat>)
      requires |was| == fb.Length == 2 * CELLS && i < CELLS - COLS && MovedUp(was, i)
      modifies fb
      ensures MovedUp(was, i + 1)
    {
      fb[2 * i] := fb[2 * (i + COLS)];
      fb[2 * i + 1] := ATTRIBUTE;
    }

    method BlankLastRow()
      requires fb.Length == 2 * CELLS
      modifies fb
      ensures forall i :: 0 <= i < 2 * (CELLS - COLS) ==> fb[i] == old(fb[i])
      ensures forall i :: CELLS - COLS <= i < CELLS ==> fb[2 * i] == SPACE && fb[2 * i + 1] == ATTRIBUTE
    {
      var c := 0;
      while c < COLS
        invariant 0 <= c <= COLS
        invariant forall i :: 0 <= i < 2 * (CELLS - COLS) ==> fb[i] == old(fb[i])
        invariant forall i :: CELLS - COLS <= i < CELLS - COLS + c ==> fb[2 * i] == SPACE && fb[2 * i + 1] == ATTRIBUTE
      {
        fb[2 * ((ROWS - 1) * COLS + c)] := SPACE;
        fb[2 * ((ROWS - 1) * COLS + c) + 1] := ATTRIBUTE;
        c := c + 1;
      }
    }

    /** The window is shown, and the cursor is on its way to position `p`. */
    ghost predicate Pending(p: nat)
      reads this, fb
    {
      && fb.Length == 2 * CELLS
      && Sound(term)
      && Shows(fb[..], term)
      && term.Top() * COLS <= term.pos <= p <= (term.Top() + ROWS) * COLS
      && cursor == p - term.Top() * COLS
    }

    /** Writes a character at terminal position `p`, which is under the cursor. */
    method WriteHere(c: nat, ghost p: nat)
      requires fb.Length == 2 * CELLS && Sound(term) && Shows(fb[..], term)
      requires term.Top() * COLS <= p <= term.pos && cursor == p - term.Top() * COLS && cursor < CELLS
      modifies fb, `term
      ensures term == old(term).(sheet := old(term).sheet[p := c]) && Sound(term) && Shows(fb[..], term)
    {
      WriteShown(fb[..], term, p, c);
      WriteCell(cursor, c);
      term := term.(sheet := term.sheet[p := c]);
    }

    /** Ends a step: scrolls if the cursor has left the buffer. */
    method Settle(ghost p: nat)
      requires Pending(p)
      modifies this, fb
      ensures Valid() && term == Moved(old(term), p) && cursor < CELLS
    {
      if cursor >= CELLS {
        ghost var was := fb[..];
        Scroll();
        ScrollShown(was, fb[..], term);
        cursor := (ROWS - 1) * COLS;
      } else {
        MoveShown(fb[..], term, p);
      }
      term := Moved(term, p);
    }

    /** Down one row and to its start. */
    method NextRow() returns (ghost p: nat)
      requires Valid()
      modifies `cursor
      ensures Pending(p) && p == (term.pos / COLS + 1) * COLS
    {
      cursor := cursor + COLS;
      cursor := cursor - cursor % COLS;
      p := (term.pos / COLS + 1) * COLS;
    }

    /** Back one cell, unless at the start of the buffer, and erases it. */
    method Erase()
      requires Valid()
      modifies this, fb
      ensures Valid() && term == Typed(old(term), BACKSPACE)
    {
      ghost var p := term.pos;
      if cursor != 0 {
        cursor := cursor - 1;
        p := p - 1;
      }
      WriteHere(SPACE, p);
      StepBack(fb[..], term, p);
      term := term.(pos := p);
    }

    lemma Settled()
      requires Valid()
      ensures Pending(term.pos) && Moved(term, term.pos) == term && cursor < CELLS
    {
    }

    /** Puts one byte on the screen and keeps showing the terminal's window. */
    method PutB(b: nat)
      requires Valid()
      modifies this, fb
      ensures Valid() && term == Put(old(term), b) && cursor < 2000
      decreases if b == TAB then 1 else 0
    {
      hide Shows, Sound;
      ghost var p := term.pos;
      Settled();
      if b != NEWLINE && b != TAB && b != BACKSPACE {
        WriteHere(b, term.pos);
      }
      if b == NEWLINE {
        p := NextRow();
      } else if b == BACKSPACE {
        Erase();
        p := term.pos;
        Settled();
      } else if b == TAB {
        for i := 0 to 4
          invariant Valid() && term == Spaces(old(term), i)
        {
          PutB(SPACE);
        }
        p := term.pos;
        Settled();
      } else {
        cursor := cursor + 1;
        p := p + 1;
      }
      Settle(p);
    }

    /** Puts a string, as far as its terminating zero. */
    method PutS(s: seq<nat>)
      requires Valid() && 0 !in s
      modifies this, fb
      ensures Valid() && term == PutAll(old(term), s)
    {
      var i := 0;
      while i < |s|
        invariant i <= |s| && Valid() && term == PutAll(old(term), s[..i])
      {
        PutB(s[i]);
        assert s[..i + 1][..i] == s[..i];
        i := i + 1;
      }
      assert s[..i] == s;
    }

    /** Blanks the buffer: the window of a fresh terminal, whatever was there. */
    method Clear()
      requires fb.Length == 2 * CELLS
      modifies this, fb
      ensures Valid() && term == BLANK && cursor == 0
    {
      var i := 0;
      while i < ROWS
        invariant i <= ROWS
        invariant forall k :: 0 <= k < i * COLS ==> fb[2 * k] == SPACE && fb[2 * k + 1] == ATTRIBUTE
      {
        var j := 0;
        while j < COLS
          invariant j <= COLS
          invariant forall k :: 0 <= k < i * COLS + j ==> fb[2 * k] == SPACE && fb[2 * k + 1] == ATTRIBUTE
        {
          WriteCell(i * COLS + j, SPACE);
          j := j + 1;
        }
        i := i + 1;
      }
      cursor := 0;
      term := BLANK;
    }
  }

  lemma StepBack(fb: seq<nat>, t: Terminal, p: nat)
    requires Sound(t) && Shows(fb, t) && t.Top() * COLS <= p <= t.pos
    ensures Sound(t.(pos := p)) && Shows(fb, t.(pos := p))
  {
  }

  /** The cursor never leaves the window and the window follows the lowest row, over
      every input. */
  lemma {:induction false} AlwaysSound(s: seq<nat>)
    ensures Sound(PutAll(BLANK, s))
  {
    if s == [] {
    } else {
      AlwaysSound(s[..|s| - 1]);
      PutSound(PutAll(BLANK, s[..|s| - 1]), s[|s| - 1]);
    }
  }

  predicate Ordinary(b: nat) { b != 10 && b != 9 && b != 8 }

  /** An ordinary character is written under the cursor, which moves one cell on; no other
      cell changes, and no earlier row comes back into view. */
  lemma CharacterWritten(t: Terminal, b: nat)
    requires Sound(t) && Ordinary(b)
    ensures
      var u := Put(t, b);
      && u.pos == t.pos + 1 && u.Cell(t.pos) == b
      && forall i: nat :: i != t.pos ==> u.Cell(i) == t.Cell(i)
  {
  }

  /** A tab moves the cursor four cells on and blanks those four, also across the end of
      a row and a scroll; no other cell changes. */
  lemma TabBlanks(t: Terminal)
    requires Sound(t)
    ensures
      var u := Put(t, 9);
      && u.pos == t.pos + 4
      && forall i: nat :: u.Cell(i) == if t.pos <= i < t.pos + 4 then 32 else t.Cell(i)
  {
    SpacesCells(t, 4);
  }

  lemma {:induction false} SpacesCells(t: Terminal, n: nat)
    ensures
      var u := Spaces(t, n);
      && u.pos == t.pos + n
      && forall i: nat :: u.Cell(i) == if t.pos <= i < t.pos + n then 32 else t.Cell(i)
  {
    if n == 0 {
    } else {
      SpacesCells(t, n - 1);
      OneSpace(Spaces(t, n - 1));
    }
  }

  lemma OneSpace(t: Terminal)
    ensures
      var u := Typed(t, SPACE);
      u.pos == t.pos + 1 && forall i: nat :: u.Cell(i) == if i == t.pos then 32 else t.Cell(i)
  {
  }

  /** A newline moves the cursor to the start of the next row and changes no cell. */
  lemma NewlineMoves(t: Terminal)
    ensures
      var u := Put(t, 10);
      && u.pos % 80 == 0 && u.pos - 80 <= t.pos < u.pos
      && forall i: nat :: u.Cell(i) == t.Cell(i)
  {
  }

  /** A backspace blanks the cell before the cursor and moves onto it; at the top of the
      window it stays and blanks the cell it is on. No other cell changes. */
  lemma BackspaceBlanks(t: Terminal)
    requires Sound(t)
    ensures
      var u := Put(t, 8);
      && u.pos == (if t.pos == 80 * t.Top() then t.pos else t.pos - 1)
      && forall i: nat :: u.Cell(i) == if i == u.pos then 32 else t.Cell(i)
  {
  }

  /** The lowest row is the lowest one the cursor has been in, and the window of 25 rows
      ends with it once there are more. */
  lemma WindowFollows(t: Terminal, b: nat)
    requires Sound(t)
    ensures Put(t, b).low == Higher(t.low, Put(t, b).pos / 80)
    ensures t.low < 25 ==> t.Top() == 0
    ensures t.low >= 25 ==> t.Top() + 25 == t.low + 1
  {
    SpacesLow(t, 4);
  }

  function Higher(a: nat, b: nat): nat { if a < b then b else a }

  lemma {:induction false} SpacesLow(t: Terminal, n: nat)
    requires t.pos / 80 <= t.low
    ensures Spaces(t, n).low == Higher(t.low, Spaces(t, n).pos / 80) && Spaces(t, n).pos == t.pos + n
  {
    if n == 0 {
    } else {
      SpacesLow(t, n - 1);
    }
  }

  /** What the buffer holds: the character and the attribute 0x0F of every cell of the
      window, two bytes a cell. */
  lemma BufferBytes(fb: seq<nat>, t: Terminal, row: nat, col: nat)
    requires Shows(fb, t) && row < 25 && col < 80
    ensures |fb| == 4000 && fb[2 * (80 * row + col)] == t.Cell(80 * (t.Top() + row) + col)
    ensures fb[2 * (80 * row + col) + 1] == 0x0F
  {
    var i := 80 * row + col;
    assert fb[2 * i] == t.Cell(t.Top() * COLS + i) && fb[2 * i + 1] == ATTRIBUTE;
  }

  /** Text without control characters lies on the sheet as it was written. */
  lemma {:induction false} PlainText(s: seq<nat>)
    requires forall i :: 0 <= i < |s| ==> Ordinary(s[i])
    ensures
      var t := PutAll(BLANK, s);
      && t.pos == |s| && t.low == |s| / COLS
      && forall i: nat :: t.Cell(i) == if i < |s| then s[i] else SPACE
  {
    if s == [] {
    } else {
      var n := |s| - 1;
      assert Ordinary(s[n]);
      PlainText(s[..n]);
      assert PutAll(BLANK, s) == Typed(PutAll(BLANK, s[..n]), s[n]);
    }
  }

  /** A backspace takes back an ordinary character, also when writing it scrolled the
      window: the cursor returns and only the cell it was on has become blank. */
  lemma BackspaceUndoes(t: Terminal, b: nat)
    requires Sound(t) && Ordinary(b)
    ensures
      var u := Put(Put(t, b), BACKSPACE);
      && u.pos == t.pos
      && forall i: nat :: u.Cell(i) == if i == t.pos then SPACE else t.Cell(i)
  {
    var v := Put(t, b);
    assert v.pos == t.pos + 1 && v.sheet == t.sheet[t.pos := b];
    assert v.Top() * COLS <= t.pos;
  }
}
