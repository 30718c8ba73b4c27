/** The VGA text console (src/drivers/vga/screen.c) as a window on a terminal that
    keeps every row ever printed. */
module Console {
  import opened Bits

  const WIDTH: nat := 80
  const HEIGHT: nat := 25
  const CELLS: nat := 2000

  // ----- Cells -----

  /** `(color << 8) | c` as a 16-bit cell. The character type is signed, so codes
      from 128 on arrive with all higher bits set. */
  function Cell(c: byte, color: byte): nat {
    Or(color * 256, if c < 128 then c else 0xFFFF_FF00 + c) % 0x1_0000
  }

  const BLANK: nat := Cell(32, 0x07)

  /** x << k */
  function Shl(x: nat, k: nat): nat {
    if k == 0 then x else 2 * Shl(x, k - 1)
  }

  lemma {:induction false} OrShifted(a: nat, b: nat, c: nat, k: nat)
    requires c < Pow2(k)
    ensures Or(Shl(a, k), Shl(b, k) + c) == Shl(Or(a, b), k) + c
  {
    if k > 0 {
      OrShifted(a, b, c / 2, k - 1);
      OrHalves(Shl(a, k - 1), Shl(b, k - 1) + c / 2, c % 2);
    }
  }

  lemma ShlByte(x: nat)
    ensures Shl(x, 8) == x * 256
  {
    assert Shl(x, 2) == 2 * Shl(x, 1) && Shl(x, 1) == 2 * Shl(x, 0);
    assert Shl(x, 4) == 2 * Shl(x, 3) && Shl(x, 3) == 2 * Shl(x, 2);
    assert Shl(x, 6) == 2 * Shl(x, 5) && Shl(x, 5) == 2 * Shl(x, 4);
    assert Shl(x, 8) == 2 * Shl(x, 7) && Shl(x, 7) == 2 * Shl(x, 6);
  }

  lemma OrHalves(x: nat, y: nat, b: nat)
    requires b < 2
    ensures Or(2 * x, 2 * y + b) == 2 * Or(x, y) + b
  {
    assert (2 * x) / 2 == x && (2 * x) % 2 == 0;
    assert (2 * y + b) / 2 == y && (2 * y + b) % 2 == b;
    if x == 0 {
      assert Or(x, y) == y;
    } else if y == 0 && b == 0 {
      assert Or(x, y) == x;
    }
  }

  lemma {:induction false} OrOnes(x: nat, k: nat)
    requires x < Pow2(k)
    ensures Or(x, Pow2(k) - 1) == Pow2(k) - 1
  {
    if x > 0 {
      OrOnes(x / 2, k - 1);
      assert (Pow2(k) - 1) / 2 == Pow2(k - 1) - 1 && (Pow2(k) - 1) % 2 == 1;
    }
  }

  lemma LowCell(c: byte, color: byte)
    requires c < 128
    ensures Or(color * 256, c) == color * 256 + c
  {
    assert Pow2(8) == 256;
    ShlByte(color);
    ShlByte(0);
    OrShifted(color, 0, c, 8);
  }

  lemma HighCell(c: byte, color: byte)
    ensures Or(color * 256, 0xFFFF_FF00 + c) == 0xFFFF_FF00 + c
  {
    assert Pow2(8) == 256;
    ShlByte(color);
    ShlByte(0xFF_FFFF);
    OrShifted(color, 0xFF_FFFF, c, 8);
    Pow2Add(8, 8);
    Pow2Add(16, 8);
    Pow2Monotone(8, 24);
    OrOnes(color, 24);
  }

  lemma CellIs(c: byte, color: byte)
    ensures Cell(c, color) == if c < 128 then color * 256 + c else 0xFF00 + c
  {
    Truncated(c, color);
    if c < 128 {
      LowCell(c, color);
    } else {
      HighCell(c, color);
    }
  }

  lemma Truncated(c: byte, color: byte)
    ensures (color * 256 + c) % 0x1_0000 == color * 256 + c && (0xFFFF_FF00 + c) % 0x1_0000 == 0xFF00 + c
  {
  }

  /** A plain character keeps its code and colour; a code of 128 or more keeps the
      code and loses the colour. */
  lemma CellParts(c: byte, color: byte)
    ensures Cell(c, color) % 256 == c
    ensures Cell(c, color) / 256 == if c < 128 then color else 0xFF
  {
    CellIs(c, color);
  }

  /** Character 128 printed in grey comes out bright white on bright white. */
  lemma GreyLost()
    ensures Cell(128, 0x07) / 256 == 0xFF
  {
    CellParts(128, 0x07);
  }

  /** A blank is a space in light grey on black. */
  lemma BlankIs()
    ensures BLANK == 0x0720
  {
    CellIs(32, 0x07);
  }

  // ----- The terminal -----

  /** All rows so far; the cursor stands at the end of the last one, and the screen
      shows 25 rows from `top` on. */
  datatype Terminal = Terminal(rows: seq<seq<nat>>, top: nat)

  predicate WellFormed(t: Terminal) {
    && t.top < |t.rows| <= t.top + HEIGHT
    && (forall r {:trigger t.rows[r]} :: 0 <= r < |t.rows| ==> |t.rows[r]| <= WIDTH)
    && |Last(t)| < WIDTH
  }

  function Last(t: Terminal): seq<nat>
    requires t.rows != []
  {
    t.rows[|t.rows| - 1]
  }

  function WithLast(t: Terminal, row: seq<nat>): Terminal
    requires t.rows != []
  {
    t.(rows := t.rows[|t.rows| - 1 := row])
  }

  /** A fresh row below. */
  function NewLine(t: Terminal): Terminal {
    t.(rows := t.rows + [[]])
  }

  /** The window follows a row that has dropped out of it. */
  function Follow(t: Terminal): Terminal {
    if |t.rows| > t.top + HEIGHT then t.(top := t.top + 1) else t
  }

  const EMPTY: Terminal := Terminal([[]], 0)

  /** A character joins the last row, which ends when it is full. */
  function Write(t: Terminal, cell: nat): Terminal
    requires t.rows != []
  {
    var u := WithLast(t, Last(t) + [cell]);
    if |Last(t)| + 1 == WIDTH then NewLine(u) else u
  }

  function Put(t: Terminal, cell: nat): Terminal
    requires t.rows != []
  {
    Follow(Write(t, cell))
  }

  function NewRow(t: Terminal): Terminal {
    Follow(NewLine(t))
  }

  function Pad(row: seq<nat>, n: nat): seq<nat>
    requires |row| <= n
  {
    row + seq(n - |row|, _ => BLANK)
  }

  /** Backspace drops the last character. At the start of a row it goes back to the
      last column of the row above, and it never leaves the window. */
  function Drop(t: Terminal): Terminal
    requires WellFormed(t)
  {
    var last := Last(t);
    if last != [] then WithLast(t, last[..|last| - 1])
    else if |t.rows| - 1 == t.top then t
    else
      var above := t.rows[|t.rows| - 2];
      t.(rows := t.rows[..|t.rows| - 2] + [if |above| == WIDTH then above[..WIDTH - 1] else Pad(above, WIDTH - 1)])
  }

  // ----- What the screen shows -----

  function CellAt(t: Terminal, i: nat): nat {
    var r, c := t.top + i / WIDTH, i % WIDTH;
    if r < |t.rows| && c < |t.rows[r]| then t.rows[r][c] else BLANK
  }

  function CursorOf(t: Terminal): int
    requires t.rows != []
  {
    (|t.rows| - 1 - t.top) * WIDTH + |Last(t)|
  }

  ghost predicate Shows(video: seq<nat>, cursor: int, t: Terminal)
    requires t.rows != []
  {
    |video| == CELLS && cursor == CursorOf(t) &&
    forall i {:trigger video[i]} :: 0 <= i < CELLS ==> video[i] == CellAt(t, i)
  }

  lemma CursorInRange(t: Terminal)
    requires WellFormed(t)
    ensures 0 <= CursorOf(t) < CELLS
    ensures CursorOf(t) / WIDTH == |t.rows| - 1 - t.top && CursorOf(t) % WIDTH == |Last(t)|
  {
  }

  lemma WriteAt(t: Terminal, cell: nat, i: nat)
    requires WellFormed(t) && i < CELLS
    ensures CellAt(Write(t, cell), i) == if i == CursorOf(t) then cell else CellAt(t, i)
    ensures CursorOf(Write(t, cell)) == CursorOf(t) + 1
  {
    CursorInRange(t);
  }

  lemma NewLineAt(t: Terminal, i: nat)
    requires WellFormed(t) && i < CELLS
    ensures CellAt(NewLine(t), i) == CellAt(t, i)
    ensures CursorOf(NewLine(t)) == CursorOf(t) + (WIDTH - CursorOf(t) % WIDTH)
  {
    CursorInRange(t);
  }

  /** The terminal after a character or a newline, before the window follows. */
  predicate Pending(t: Terminal) {
    && t.top < |t.rows| <= t.top + HEIGHT + 1
    && (|t.rows| == t.top + HEIGHT + 1 ==> Last(t) == [])
    && (forall r {:trigger t.rows[r]} :: 0 <= r < |t.rows| ==> |t.rows[r]| <= WIDTH)
    && |Last(t)| < WIDTH
  }

  lemma FollowAt(t: Terminal, i: nat)
    requires Pending(t) && i < CELLS
    ensures CursorOf(t) >= CELLS <==> |t.rows| > t.top + HEIGHT
    ensures CursorOf(Follow(t)) == if CursorOf(t) >= CELLS then CELLS - WIDTH else CursorOf(t)
    ensures CellAt(Follow(t), i) ==
      if CursorOf(t) < CELLS then CellAt(t, i) else if i < CELLS - WIDTH then CellAt(t, i + WIDTH) else BLANK
  {
  }

  lemma DropAt(t: Terminal, i: nat)
    requires WellFormed(t)
    ensures CursorOf(Drop(t)) == if CursorOf(t) > 0 then CursorOf(t) - 1 else 0
    ensures CellAt(Drop(t), i) == if i == CursorOf(Drop(t)) then BLANK else CellAt(t, i)
  {
    CursorInRange(t);
    if Last(t) != [] {
      DropInRow(t, i);
    } else if |t.rows| - 1 > t.top {
      DropToRowAbove(t, i);
    }
  }

  lemma DropInRow(t: Terminal, i: nat)
    requires WellFormed(t) && Last(t) != []
    ensures CursorOf(Drop(t)) == CursorOf(t) - 1
    ensures CellAt(Drop(t), i) == if i == CursorOf(t) - 1 then BLANK else CellAt(t, i)
  {
    CursorInRange(t);
  }

  lemma DropToRowAbove(t: Terminal, i: nat)
    requires WellFormed(t) && Last(t) == [] && |t.rows| - 1 > t.top
    ensures CursorOf(Drop(t)) == CursorOf(t) - 1
    ensures CellAt(Drop(t), i) == if i == CursorOf(t) - 1 then BLANK else CellAt(t, i)
  {
    var k, u := |t.rows| - 2, Drop(t);
    RowAbove(t, u, k);
    assert CursorOf(t) - 1 == (k - t.top) * WIDTH + (WIDTH - 1);
    assert i / WIDTH == k - t.top && i % WIDTH == WIDTH - 1 <==> i == CursorOf(t) - 1;
  }

  /** The rows above stay; the one before the last has a column free at its end. */
  lemma RowAbove(t: Terminal, u: Terminal, k: nat)
    requires WellFormed(t) && Last(t) == [] && |t.rows| - 1 > t.top && k == |t.rows| - 2 && u == Drop(t)
    ensures u.top == t.top && |u.rows| == k + 1 && |u.rows[k]| == WIDTH - 1
    ensures forall r {:trigger u.rows[r]} :: 0 <= r < k ==> u.rows[r] == t.rows[r]
    ensures forall c {:trigger u.rows[k][c]} ::
      0 <= c < WIDTH - 1 ==> u.rows[k][c] == if c < |t.rows[k]| then t.rows[k][c] else BLANK
  {
  }

  lemma StepsKeep(t: Terminal, cell: nat)
    requires WellFormed(t)
    ensures Pending(Write(t, cell)) && Pending(NewLine(t))
    ensures WellFormed(Put(t, cell)) && WellFormed(NewRow(t)) && WellFormed(Drop(t))
  {
  }

  // ----- The same by positions -----

  /** Where a character takes the cursor: on by one, or to the next row. */
  function Advanced(cursor: nat, c: byte): nat {
    if c == 10 then (cursor / 80 + 1) * 80 else cursor + 1
  }

  /** From behind the screen it comes back to the start of the last row. */
  function Settled(cursor: nat): nat {
    if cursor == 2000 then 1920 else cursor
  }

  /** The cells as they were, or each row one up and the last one blank. */
  ghost predicate Scrolled(was: seq<nat>, now: seq<nat>, up: bool) {
    && |was| == |now| == 2000
    && forall i :: 0 <= i < 2000 ==> now[i] == if !up then was[i] else if i < 1920 then was[i + 80] else 0x0720
  }

  // ----- The driver -----

  class Screen {
    const video: array<nat>
    var cursor: nat
    ghost var term: Terminal

    ghost predicate Valid()
      reads this, video
    {
      WellFormed(term) && Shows(video[..], cursor, term)
    }

    constructor ()
      ensures fresh(video) && Valid() && term == EMPTY
    {
      video := new nat[CELLS](_ => BLANK);
      cursor := 0;
      term := EMPTY;
    }

    method ClearScreen()
      requires video.Length == CELLS
      modifies this, video
      ensures Valid() && term == EMPTY
      ensures cursor == 0 && forall i :: 0 <= i < 2000 ==> video[i] == 0x0720
    {
      BlankIs();
      for i := 0 to CELLS
        invariant forall k :: 0 <= k < i ==> video[k] == BLANK
      {
        video[i] := BLANK;
      }
      cursor := 0;
      term := EMPTY;
    }

    /** Every row moves up by one, the last becomes blank. */
    method Scroll()
      requires video.Length == CELLS
      modifies this`cursor, video
      ensures cursor == CELLS - WIDTH
      ensures forall i :: 0 <= i < CELLS ==> video[i] == if i < CELLS - WIDTH then old(video[i + WIDTH]) else BLANK
    {
      for row := 0 to HEIGHT - 1
        invariant forall i :: 0 <= i < CELLS ==> video[i] == if i < row * WIDTH then old(video[i + WIDTH]) else old(video[i])
      {
        for col := 0 to WIDTH
          invariant forall i :: 0 <= i < CELLS ==>
            video[i] == if i < row * WIDTH + col then old(video[i + WIDTH]) else old(video[i])
        {
          video[row * WIDTH + col] := video[(row + 1) * WIDTH + col];
        }
      }
      for col := 0 to WIDTH
        invariant forall i :: 0 <= i < CELLS - WIDTH ==> video[i] == old(video[i + WIDTH])
        invariant forall i :: CELLS - WIDTH <= i < CELLS - WIDTH + col ==> video[i] == BLANK
      {
        video[(HEIGHT - 1) * WIDTH + col] := BLANK;
      }
      cursor := (HEIGHT - 1) * WIDTH;
    }

    method PrintChar(c: byte, color: byte)
      requires Valid()
      modifies this, video
      ensures Valid()
      ensures term == if c == 10 then NewRow(old(term)) else Put(old(term), Cell(c, color))
      ensures cursor == Settled(Advanced(old(cursor), c))
      ensures Scrolled(if c == 10 then old(video[..]) else old(video[..])[old(cursor) := Cell(c, color)], video[..],
                       Advanced(old(cursor), c) == 2000)
    {
      StepsKeep(term, Cell(c, color));
      CursorInRange(term);
      if c == 10 {
        forall i: nat | i < CELLS ensures CellAt(NewLine(term), i) == CellAt(term, i) {
          NewLineAt(term, i);
        }
        NewLineAt(term, 0);
        cursor := cursor + (WIDTH - cursor % WIDTH);
        term := NewLine(term);
      } else {
        forall i: nat | i < CELLS
          ensures CellAt(Write(term, Cell(c, color)), i) == if i == CursorOf(term) then Cell(c, color) else CellAt(term, i)
        {
          WriteAt(term, Cell(c, color), i);
        }
        WriteAt(term, Cell(c, color), 0);
        video[cursor] := Cell(c, color);
        cursor := cursor + 1;
        term := Write(term, Cell(c, color));
      }
      Settle();
    }

    /** `if (cursor_pos >= 2000) scroll();` */
    method Settle()
      requires Pending(term) && Shows(video[..], cursor, term)
      modifies this, video
      ensures term == Follow(old(term)) && Shows(video[..], cursor, term)
      ensures cursor == if old(cursor) >= 2000 then 1920 else old(cursor)
      ensures Scrolled(old(video[..]), video[..], old(cursor) >= 2000)
    {
      BlankIs();
      ghost var t, v := term, video[..];
      FollowAt(t, 0);
      forall i: nat | i < CELLS
        ensures CellAt(Follow(t), i) ==
          if CursorOf(t) < CELLS then CellAt(t, i) else if i < CELLS - WIDTH then CellAt(t, i + WIDTH) else BLANK
      {
        FollowAt(t, i);
      }
      if cursor >= WIDTH * HEIGHT {
        Scroll();
        forall i: nat | i < CELLS
          ensures video[i] == CellAt(Follow(t), i)
        {
          if i < CELLS - WIDTH { assert v[i + WIDTH] == CellAt(t, i + WIDTH); }
        }
      }
      term := Follow(t);
    }

    method DelChar()
      requires Valid()
      modifies this, video
      ensures Valid() && term == Drop(old(term))
      ensures cursor == if old(cursor) == 0 then 0 else old(cursor) - 1
      ensures video[..] == old(video[..])[cursor := 0x0720]
    {
      BlankIs();
      ghost var t := term;
      StepsKeep(t, 0);
      CursorInRange(t);
      DropAt(t, 0);
      forall i: nat | i < CELLS
        ensures CellAt(Drop(t), i) == if i == CursorOf(Drop(t)) then BLANK else CellAt(t, i)
      {
        DropAt(t, i);
      }
      if cursor > 0 {
        cursor := cursor - 1;
        video[cursor] := BLANK;
      } else {
        video[cursor] := BLANK;
      }
      term := Drop(t);
    }
  }

  // ----- What the terminal is good for -----

  /** All characters on the terminal, row by row. */
  function Text(rows: seq<seq<nat>>): seq<nat> {
    if rows == [] then [] else Text(rows[..|rows| - 1]) + rows[|rows| - 1]
  }

  /** One step: what is printed joins the text at its end. */
  lemma PutKeepsText(t: Terminal, cell: nat)
    requires t.rows != []
    ensures Text(Put(t, cell).rows) == Text(t.rows) + [cell]
    ensures Text(NewRow(t).rows) == Text(t.rows)
  {
    var n := |t.rows|;
    var u := WithLast(t, Last(t) + [cell]);
    assert u.rows[..n - 1] == t.rows[..n - 1];
    assert Text(u.rows) == Text(t.rows) + [cell];
    assert (u.rows + [[]])[..n] == u.rows;
    assert (t.rows + [[]])[..n] == t.rows;
  }

  /** Backspace undoes a character, also across the end of a row; the window alone
      does not move back. */
  lemma DropUndoesPut(t: Terminal, cell: nat)
    requires WellFormed(t)
    ensures Drop(Put(t, cell)).rows == t.rows
    ensures Drop(Put(t, cell)).top == if CursorOf(t) == CELLS - 1 then t.top + 1 else t.top
  {
    var n, last := |t.rows|, Last(t);
    StepsKeep(t, cell);
    CursorInRange(t);
    assert (last + [cell])[..|last|] == last;
    assert WithLast(t, last + [cell]).rows[..n - 1] == t.rows[..n - 1];
    assert t.rows == t.rows[..n - 1] + [last];
  }

  datatype Key = Char(c: byte, color: byte) | Backspace

  function Apply(t: Terminal, k: Key): Terminal
    requires t.rows != []
  {
    match k
    case Char(c, color) => if c == 10 then NewRow(t) else Put(t, Cell(c, color))
    case Backspace => if WellFormed(t) then Drop(t) else t
  }

  /** Any sequence of characters and backspaces after a clear leaves the screen a
      window of the terminal that has received them, the cursor inside it. */
  method Type(s: Screen, keys: seq<Key>)
    requires s.video.Length == CELLS
    modifies s, s.video
    ensures s.Valid() && 0 <= s.cursor < CELLS
    ensures s.term == Typed(keys)
  {
    s.ClearScreen();
    for n := 0 to |keys|
      invariant s.Valid() && s.term == Typed(keys[..n])
    {
      assert keys[..n + 1][..n] == keys[..n];
      match keys[n]
      case Char(c, color) => s.PrintChar(c, color);
      case Backspace => s.DelChar();
    }
    assert keys[..|keys|] == keys;
    CursorInRange(s.term);
  }

  function Typed(keys: seq<Key>): (t: Terminal)
    ensures t.rows != []
  {
    if keys == [] then EMPTY else Apply(Typed(keys[..|keys| - 1]), keys[|keys| - 1])
  }

  function CellsOf(k: Key): seq<nat> {
    match k
    case Char(c, color) => if c == 10 then [] else [Cell(c, color)]
    case Backspace => []
  }

  /** The cells of the characters printed. */
  function Cells(keys: seq<Key>): seq<nat> {
    if keys == [] then [] else Cells(keys[..|keys| - 1]) + CellsOf(keys[|keys| - 1])
  }

  lemma ApplyText(t: Terminal, k: Key)
    requires t.rows != [] && k.Char?
    ensures Text(Apply(t, k).rows) == Text(t.rows) + CellsOf(k)
  {
    PutKeepsText(t, Cell(k.c, k.color));
  }

  /** Nothing printed is lost or reordered, however far the window scrolls. */
  lemma {:induction false} TypedText(keys: seq<Key>)
    requires Backspace !in keys
    ensures Text(Typed(keys).rows) == Cells(keys)
  {
    if keys == [] {
      assert EMPTY.rows[..0] == [];
    } else {
      var init, k := keys[..|keys| - 1], keys[|keys| - 1];
      assert k in keys;
      assert forall x :: x in init ==> x in keys;
      TypedText(init);
      ApplyText(Typed(init), k);
    }
  }

  /** Without backspaces the window starts at the top and moves down one row for
      each row past the 25th. */
  lemma {:induction false} WindowPosition(keys: seq<Key>)
    requires Backspace !in keys
    ensures WellFormed(Typed(keys)) && AtBottom(Typed(keys))
  {
    if keys != [] {
      var init, k := keys[..|keys| - 1], keys[|keys| - 1];
      assert k in keys;
      assert forall x :: x in init ==> x in keys;
      WindowPosition(init);
      if k.c == 10 {
        NewRowPosition(Typed(init));
      } else {
        PutPosition(Typed(init), Cell(k.c, k.color));
      }
    }
  }

  /** The window is as high up as it can be with the last row in it. */
  predicate AtBottom(t: Terminal) {
    t.top == if |t.rows| <= HEIGHT then 0 else |t.rows| - HEIGHT
  }

  lemma PutPosition(t: Terminal, cell: nat)
    requires WellFormed(t) && AtBottom(t)
    ensures WellFormed(Put(t, cell)) && AtBottom(Put(t, cell))
  {
    StepsKeep(t, cell);
  }

  lemma NewRowPosition(t: Terminal)
    requires WellFormed(t) && AtBottom(t)
    ensures WellFormed(NewRow(t)) && AtBottom(NewRow(t))
  {
    StepsKeep(t, 0);
  }
}
