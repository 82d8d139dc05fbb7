/**
 The text screen of src/framebuffer.c with scroll_up of src/keyboard.c: 25 rows of 80 cells that
 show the last rows of an endless page.
 */
module Screen {
  import opened Bytes

  const MAX_ROW := 25
  const MAX_COLUMN := 80
  const LAST_ROW := 24
  const MEMORY_SIZE := 4000

  datatype Cell = Cell(symbol: byte, color: byte)

  /** What one call of putchar is given. */
  datatype Glyph = Glyph(symbol: byte, color: nat)
  {
    predicate Breaks() { symbol == NEWLINE }

    /** On black ground, with the low four bits of the color. */
    function Ink(): Cell { Cell(symbol, Color(color, 0)) }
  }

  function Color(fg: nat, bg: nat): byte { bg % 16 * 16 + fg % 16 }

  // ----- the endless page -----

  /** Rows of the cleared screen are empty cells, the rows that scrolling brings in are blanks. */
  function Background(row: nat): Cell
  {
    if row < MAX_ROW then Cell(0, 7) else Cell(SPACE, 15)
  }

  datatype Place = Place(row: nat, col: nat)

  /** Where the next glyph goes after a text. */
  function Cursor(text: seq<Glyph>): (p: Place)
    ensures p.col < MAX_COLUMN
  {
    if text == [] then Place(0, 0)
    else
      var p := Cursor(text[..|text| - 1]);
      if text[|text| - 1].Breaks() || p.col == MAX_COLUMN - 1 then Place(p.row + 1, 0) else Place(p.row, p.col + 1)
  }

  /** What a cell of the page shows after a text. */
  function Shown(text: seq<Glyph>, p: Place): Cell
  {
    if text == [] then Background(p.row)
    else
      var last, before := text[|text| - 1], text[..|text| - 1];
      if !last.Breaks() && Cursor(before) == p then last.Ink() else Shown(before, p)
  }

  predicate Precedes(p: Place, q: Place) { p.row < q.row || (p.row == q.row && p.col < q.col) }

  /** The cursor only ever moves forward. */
  lemma {:induction false} CursorMovesOn(text: seq<Glyph>, k: nat)
    requires k < |text|
    ensures Precedes(Cursor(text[..k]), Cursor(text))
  {
    var before := text[..|text| - 1];
    if k < |text| - 1 {
      CursorMovesOn(before, k);
      assert before[..k] == text[..k];
    }
  }

  /**
   A printed glyph stays: the page shows it where the cursor was, whatever comes after it, with the low
   four bits of its color on black ground.
   */
  lemma {:induction false} GlyphStays(text: seq<Glyph>, k: nat)
    requires k < |text| && text[k].symbol != 10
    ensures var cell := Shown(text, Cursor(text[..k]));
            cell.symbol == text[k].symbol && cell.color % 16 == text[k].color % 16 && cell.color / 16 == 0
    ensures Shown(text, Cursor(text[..k])) == text[k].Ink()
  {
    var before := text[..|text| - 1];
    if k < |text| - 1 {
      GlyphStays(before, k);
      assert before[..k] == text[..k];
      CursorMovesOn(before, k);
    }
  }

  /** A cell where no glyph was printed shows the background: cleared, or scrolled in. */
  lemma {:induction false} RestIsBackground(text: seq<Glyph>, p: Place)
    requires forall k :: 0 <= k < |text| && text[k].symbol != 10 ==> Cursor(text[..k]) != p
    ensures Shown(text, p) == if p.row < 25 then Cell(0, 7) else Cell(32, 15)
  {
    if text != [] {
      var before := text[..|text| - 1];
      assert text[..|text| - 1] == before;
      forall k | 0 <= k < |before| && before[k].symbol != 10 ensures Cursor(before[..k]) != p
      {
        assert before[..k] == text[..k];
      }
      RestIsBackground(before, p);
    }
  }

  /** Without line breaks the text fills the page row by row. */
  lemma {:induction false} PlainTextFillsRows(text: seq<Glyph>)
    requires forall k :: 0 <= k < |text| ==> !text[k].Breaks()
    ensures Cursor(text) == Place(|text| / MAX_COLUMN, |text| % MAX_COLUMN)
  {
    if text != [] {
      PlainTextFillsRows(text[..|text| - 1]);
    }
  }

  /** A line break starts a row, which the rest of the line and the rows below it then fill. */
  lemma {:induction false} LineFillsRows(before: seq<Glyph>, line: seq<Glyph>, color: nat)
    requires forall k :: 0 <= k < |line| ==> line[k].symbol != 10
    ensures Cursor(before + [Glyph(10, color)] + line) == Place(Cursor(before).row + 1 + |line| / 80, |line| % 80)
  {
    var start := before + [Glyph(10, color)];
    var text := start + line;
    if line == [] {
      assert text == start && start[..|before|] == before;
    } else {
      assert text[..|text| - 1] == start + line[..|line| - 1];
      LineFillsRows(before, line[..|line| - 1], color);
    }
  }

  /** The page row that the screen shows at its top. */
  function Top(text: seq<Glyph>): nat
  {
    var row := Cursor(text).row;
    if row < MAX_ROW then 0 else row - (MAX_ROW - 1)
  }

  // ----- the screen memory -----

  function CellAt(memory: seq<byte>, row: nat, col: nat): Cell
    requires |memory| == MEMORY_SIZE && row < MAX_ROW && col < MAX_COLUMN
  {
    Cell(memory[(row * 80 + col) * 2], memory[(row * 80 + col) * 2 + 1])
  }

  /** The screen shows 25 rows of the page, from row top on. */
  ghost predicate Shows(memory: seq<byte>, text: seq<Glyph>, top: nat)
    requires |memory| == MEMORY_SIZE
  {
    forall r, c {:trigger CellAt(memory, r, c)} :: 0 <= r < MAX_ROW && 0 <= c < MAX_COLUMN ==>
      CellAt(memory, r, c) == Shown(text, Place(top + r, c))
  }

  class Framebuffer {
    const memory: array<byte>
    var curRow: int
    var curCol: int
    var startRow: int
    ghost var text: seq<Glyph>

    ghost predicate Valid()
      reads this, memory
    {
      memory.Length == MEMORY_SIZE && Shows(memory[..], text, Top(text)) &&
      curRow == Cursor(text).row - Top(text) && curCol == Cursor(text).col
    }

    /** The zeroed state over the video memory, before the first clear. */
    constructor (memory: array<byte>)
      ensures this.memory == memory && curRow == curCol == startRow == 0 && text == []
    {
      this.memory := memory;
      curRow, curCol, startRow := 0, 0, 0;
      text := [];
    }

    /** A printed glyph whose row is still on the screen is in the memory: its byte, and its color on black. */
    lemma GlyphInMemory(k: nat)
      requires Valid() && k < |text| && text[k].symbol != 10 && Cursor(text[..k]).row >= Top(text)
      ensures Cursor(text[..k]).row - Top(text) < 25
      ensures var at := ((Cursor(text[..k]).row - Top(text)) * 80 + Cursor(text[..k]).col) * 2;
              memory[at] == text[k].symbol && memory[at + 1] % 16 == text[k].color % 16 && memory[at + 1] / 16 == 0
    {
      hide Shown, Cursor, CellAt;
      var p := Cursor(text[..k]);
      CursorMovesOn(text, k);
      GlyphStays(text, k);
      assert CellAt(memory[..], p.row - Top(text), p.col) == Shown(text, Place(Top(text) + (p.row - Top(text)), p.col));
      CellBytes(memory[..], p.row - Top(text), p.col);
    }

    lemma CursorInRange()
      requires Valid()
      ensures 0 <= curRow < MAX_ROW && 0 <= curCol < MAX_COLUMN
    {
    }

    /** framebuffer_write. */
    method WriteCell(row: nat, col: nat, symbol: byte, fg: nat, bg: nat)
      requires memory.Length == MEMORY_SIZE && row < MAX_ROW && col < MAX_COLUMN
      modifies memory
      ensures memory[(row * 80 + col) * 2] == symbol
      ensures memory[(row * 80 + col) * 2 + 1] == bg % 16 * 16 + fg % 16
      ensures forall k :: 0 <= k < 4000 && k / 2 != row * 80 + col ==> memory[k] == old(memory[k])
      ensures CellAt(memory[..], row, col) == Cell(symbol, Color(fg, bg))
      ensures forall r, c :: 0 <= r < MAX_ROW && 0 <= c < MAX_COLUMN && (r != row || c != col) ==>
                CellAt(memory[..], r, c) == CellAt(old(memory[..]), r, c)
    {
      var position := row * 80 + col;
      memory[position * 2] := symbol;
      memory[position * 2 + 1] := Color(fg, bg);
    }

    /** framebuffer_clear, with the cursor put back as the clear call does. */
    method Clear()
      requires memory.Length == MEMORY_SIZE
      modifies this`curRow, this`curCol, this`text, memory
      ensures Valid() && text == [] && curRow == curCol == 0
      ensures forall k :: 0 <= k < 4000 ==> memory[k] == if k % 2 == 0 then 0 else 7
    {
      for i := 0 to MAX_ROW
        invariant forall r, c :: 0 <= r < i && 0 <= c < MAX_COLUMN ==> CellAt(memory[..], r, c) == Cell(0, 7)
      {
        for j := 0 to MAX_COLUMN
          invariant forall r, c :: 0 <= r < i && 0 <= c < MAX_COLUMN ==> CellAt(memory[..], r, c) == Cell(0, 7)
          invariant forall c :: 0 <= c < j ==> CellAt(memory[..], i, c) == Cell(0, 7)
        {
          WriteCell(i, j, 0, 7, 0);
        }
      }
      forall k | 0 <= k < 4000 ensures memory[k] == if k % 2 == 0 then 0 else 7
      {
        var row, col := k / 2 / 80, k / 2 % 80;
        assert CellAt(memory[..], row, col) == Cell(0, 7);
        CellBytes(memory[..], row, col);
      }
      curCol := 0;
      curRow := 0;
      text := [];
    }

    /** scroll_up: the copy moves overlapping memory, which its ascending order allows. */
    method ScrollUp()
      requires memory.Length == MEMORY_SIZE && 0 < curRow <= MAX_ROW
      modifies this`curRow, this`startRow, memory
      ensures curRow == old(curRow) - 1 && startRow == old(startRow) - 1
      ensures forall r, c :: 0 <= r < MAX_ROW - 1 && 0 <= c < MAX_COLUMN && r != curRow ==>
                CellAt(memory[..], r, c) == CellAt(old(memory[..]), r + 1, c)
      ensures forall c :: 0 <= c < MAX_COLUMN ==> CellAt(memory[..], curRow, c) == Cell(SPACE, 15)
    {
      hide CellAt;
      MemCpyDown(memory, 0, MAX_COLUMN * 2, MAX_COLUMN * 2 * MAX_ROW - MAX_COLUMN * 2);
      ghost var moved := memory[..];
      MovedRows(old(memory[..]), moved);
      startRow := startRow - 1;
      curRow := curRow - 1;
      for i := 0 to MAX_COLUMN
        invariant curRow == old(curRow) - 1 && startRow == old(startRow) - 1
        invariant forall c :: 0 <= c < i ==> CellAt(memory[..], curRow, c) == Cell(SPACE, 15)
        invariant forall r, c :: 0 <= r < MAX_ROW && 0 <= c < MAX_COLUMN && r != curRow ==>
                    CellAt(memory[..], r, c) == CellAt(moved, r, c)
      {
        WriteCell(curRow, i, SPACE, 15, 0);
      }
    }

    /** putchar: one glyph more on the page. The mark of the input start stays on its page row. */
    method PutChar(symbol: byte, color: nat)
      requires Valid()
      modifies this`curRow, this`curCol, this`startRow, this`text, memory
      ensures Valid() && text == old(text) + [Glyph(symbol, color)]
      ensures curRow == if Cursor(text).row < 25 then Cursor(text).row else 24
      ensures curCol == Cursor(text).col
      ensures symbol != 10 ==>
                var p := Cursor(old(text)); var at := ((p.row - Top(text)) * 80 + p.col) * 2;
                0 <= at < 4000 && memory[at] == symbol && memory[at + 1] % 16 == color % 16 && memory[at + 1] / 16 == 0
      ensures Top(text) + startRow == old(Top(text) + startRow)
    {
      hide Shown, Shows, Cursor, CellAt;
      ghost var glyph := Glyph(symbol, color);
      ghost var before, top, was := text, Top(text), memory[..];
      CursorInRange();
      NextCursor(before, glyph);
      if symbol != NEWLINE {
        WriteCell(curRow, curCol, symbol, color, 0);
      }
      text := text + [glyph];
      Inked(was, memory[..], before, glyph, top, curRow, curCol);
      if curCol == 79 || symbol == NEWLINE {
        curCol := 0;
        curRow := curRow + 1;
        ScrollToCursor(before, glyph, top);
      } else {
        curCol := curCol + 1;
      }
      if symbol != 10 {
        LastOnScreen(before, glyph);
        GlyphInMemory(|before|);
      }
    }

    /** The scroll loop of putchar, once the cursor has left the line. */
    method ScrollToCursor(ghost before: seq<Glyph>, ghost glyph: Glyph, ghost top: nat)
      requires memory.Length == MEMORY_SIZE && text == before + [glyph] && top == Top(before)
      requires 0 < curRow <= MAX_ROW && top + curRow == Cursor(text).row == Cursor(before).row + 1
      requires Shows(memory[..], text, top)
      modifies this`curRow, this`startRow, memory
      ensures Shows(memory[..], text, Top(text)) && curRow == Cursor(text).row - Top(text)
      ensures Top(text) + startRow == top + old(startRow)
    {
      hide Shown, Shows, Cursor, CellAt;
      ghost var row := Cursor(text).row;
      while curRow >= MAX_ROW
        invariant top <= row - curRow && 0 < curRow <= MAX_ROW
        invariant Shows(memory[..], text, row - curRow)
        invariant row - curRow + startRow == top + old(startRow)
        invariant curRow < MAX_ROW ==> row - curRow == Top(text)
      {
        ghost var was := memory[..];
        ScrollUp();
        Scrolled(was, memory[..], before, glyph, row - curRow - 1);
      }
    }

    /** puts: the string up to its NUL, or len bytes of it. */
    method Puts(str: seq<byte>, len: nat, color: nat)
      requires Valid() && (len <= |str| || NUL in str)
      modifies this`curRow, this`curCol, this`startRow, this`text, memory
      ensures Valid() && text == old(text) + Glyphs(CStr(str[..if len <= |str| then len else |str|]), color)
      ensures Top(text) + startRow == old(Top(text) + startRow)
    {
      hide Valid, Top;
      ghost var shown := str[..if len <= |str| then len else |str|];
      ghost var start := text;
      assert text == start + Glyphs([], color);
      var i := 0;
      while i < len
        invariant i <= |shown| && NUL !in str[..i] && (i < len ==> i < |str|)
        invariant Valid() && text == start + Glyphs(str[..i], color)
        invariant Top(text) + startRow == old(Top(text) + startRow)
      {
        if str[i] == NUL {
          break;
        }
        PutChar(str[i], color);
        i := i + 1;
        assert Glyphs(str[..i], color) == Glyphs(str[..i - 1], color) + [Glyph(str[i - 1], color)];
        if i == |str| {
          assert str[..i] == str;
        }
      }
      CStrUnique(shown, str[..i]);
    }
  }

  /** The bytes moved by one row's size are the cells moved by one row. */
  lemma MovedRows(was: seq<byte>, moved: seq<byte>)
    requires |was| == MEMORY_SIZE && moved == was[..0] + was[160..160 + 3840] + was[3840..]
    ensures |moved| == MEMORY_SIZE
    ensures forall r, c :: 0 <= r < MAX_ROW - 1 && 0 <= c < MAX_COLUMN ==> CellAt(moved, r, c) == CellAt(was, r + 1, c)
  {
    assert forall k :: 0 <= k < 3840 ==> moved[k] == was[k + 160];
  }

  /** The two bytes of a cell. */
  lemma CellBytes(memory: seq<byte>, row: nat, col: nat)
    requires |memory| == MEMORY_SIZE && row < MAX_ROW && col < MAX_COLUMN
    ensures CellAt(memory, row, col).symbol == memory[(row * 80 + col) * 2]
    ensures CellAt(memory, row, col).color == memory[(row * 80 + col) * 2 + 1]
  {
  }

  /** The glyph just printed is on the screen, scrolled or not. */
  lemma LastOnScreen(before: seq<Glyph>, glyph: Glyph)
    ensures (before + [glyph])[..|before|] == before && (before + [glyph])[|before|] == glyph
    ensures Cursor(before).row >= Top(before + [glyph])
  {
    hide Cursor;
    NextCursor(before, glyph);
  }

  /** The string as glyphs of one color. */
  function Glyphs(s: seq<byte>, color: nat): (g: seq<Glyph>)
    ensures |g| == |s| && forall i :: 0 <= i < |s| ==> g[i].symbol == s[i] && g[i].color == color
  {
    seq(|s|, i requires 0 <= i < |s| => Glyph(s[i], color))
  }

  lemma NextCursor(before: seq<Glyph>, glyph: Glyph)
    ensures var at := Cursor(before);
            Cursor(before + [glyph]) == if glyph.Breaks() || at.col == MAX_COLUMN - 1 then Place(at.row + 1, 0)
                                        else Place(at.row, at.col + 1)
  {
    assert (before + [glyph])[..|before|] == before;
  }

  /** Writing the glyph at the cursor shows the page with one glyph more. */
  lemma Inked(was: seq<byte>, memory: seq<byte>, before: seq<Glyph>, glyph: Glyph, top: nat, row: nat, col: nat)
    requires |was| == |memory| == MEMORY_SIZE && Shows(was, before, top)
    requires Cursor(before) == Place(top + row, col) && row < MAX_ROW && col < MAX_COLUMN
    requires glyph.Breaks() ==> was == memory
    requires !glyph.Breaks() ==>
               CellAt(memory, row, col) == glyph.Ink() &&
               forall r, c :: 0 <= r < MAX_ROW && 0 <= c < MAX_COLUMN && (r != row || c != col) ==>
                 CellAt(memory, r, c) == CellAt(was, r, c)
    ensures Shows(memory, before + [glyph], top)
  {
    hide Shown, Cursor, CellAt;
    Printed(before, glyph);
  }

  /** Moving the rows up and blanking the last one shows the page one row further down. */
  lemma Scrolled(was: seq<byte>, memory: seq<byte>, before: seq<Glyph>, glyph: Glyph, top: nat)
    requires |was| == |memory| == MEMORY_SIZE && Shows(was, before + [glyph], top)
    requires Cursor(before).row < top + MAX_ROW
    requires forall r, c :: 0 <= r < MAX_ROW - 1 && 0 <= c < MAX_COLUMN ==>
               CellAt(memory, r, c) == CellAt(was, r + 1, c)
    requires forall c :: 0 <= c < MAX_COLUMN ==> CellAt(memory, LAST_ROW, c) == Cell(SPACE, 15)
    ensures Shows(memory, before + [glyph], top + 1)
  {
    hide Shown;
    Printed(before, glyph);
    forall r, c | 0 <= r < MAX_ROW && 0 <= c < MAX_COLUMN
      ensures CellAt(memory, r, c) == Shown(before + [glyph], Place(top + 1 + r, c))
    {
      if r < MAX_ROW - 1 {
        assert CellAt(was, r + 1, c) == Shown(before + [glyph], Place(top + (r + 1), c));
      }
    }
  }

  /** What one more glyph changes on the page, and that the rows below the cursor are background. */
  lemma {:induction false} Printed(before: seq<Glyph>, glyph: Glyph)
    ensures var text := before + [glyph]; var at := Cursor(before);
            (forall p :: p != at ==> Shown(text, p) == Shown(before, p)) &&
            Shown(text, at) == (if glyph.Breaks() then Shown(before, at) else glyph.Ink()) &&
            Cursor(text) == if glyph.Breaks() || at.col == MAX_COLUMN - 1 then Place(at.row + 1, 0)
                            else Place(at.row, at.col + 1)
    ensures forall p :: Precedes(Cursor(before), p) ==> Shown(before + [glyph], p) == Background(p.row)
  {
    var text := before + [glyph];
    assert text[..|before|] == before;
    forall p | Precedes(Cursor(before), p) ensures Shown(text, p) == Background(p.row)
    {
      forall k | 0 <= k < |before| && !before[k].Breaks() ensures Cursor(before[..k]) != p
      {
        CursorMovesOn(before, k);
      }
      RestIsBackground(before, p);
    }
  }
}
