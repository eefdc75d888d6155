/**
 * The layout pass of `lcd.Draw`: a cursor walks the message and stores the
 * glyph for each character in a sparse grid keyed by (row, column).
 *
 * A newline moves the cursor to column 0 of the next row and stores nothing.
 * Any other character stores its glyph (or the fallback glyph) at the cursor,
 * whatever the row, and moves the cursor one column on, wrapping to the next
 * row when the column reaches `cols`.
 */
module Layout {
  import opened Glyphs

  datatype Cursor = Cursor(row: int, col: int)

  /** The sparse layout grid `glyphs[row][col]`, flattened to one map. */
  type Grid = map<(int, int), Glyph>

  function Key(c: Cursor): (int, int)
  {
    (c.row, c.col)
  }

  /**
   * The glyph stored for `ch`: its own entry, else the entry for '?', and when
   * that is missing too, Go's zero-value glyph.
   */
  function Lookup(font: FontTable, ch: char): Glyph
  {
    if ch in font then font[ch]
    else if '?' in font then font['?']
    else Blank
  }

  /** The cursor after processing `ch` at cursor `c`. */
  function Advance(c: Cursor, ch: char, cols: int): Cursor
  {
    if ch == '\n' then Cursor(c.row + 1, 0)
    else if c.col + 1 >= cols then Cursor(c.row + 1, 0)
    else Cursor(c.row, c.col + 1)
  }

  /** The cursor after processing all of `msg` from (0, 0). */
  function CursorAfter(msg: string, cols: int): Cursor
  {
    if msg == [] then Cursor(0, 0)
    else Advance(CursorAfter(msg[..|msg| - 1], cols), msg[|msg| - 1], cols)
  }

  /** The cursor at which character `i` of `msg` is processed. */
  function CursorAt(msg: string, cols: int, i: int): Cursor
    requires 0 <= i <= |msg|
  {
    CursorAfter(msg[..i], cols)
  }

  /** The grid after processing all of `msg`. */
  function GridOf(msg: string, cols: int, font: FontTable): Grid
  {
    if msg == [] then map[]
    else
      var prefix := msg[..|msg| - 1];
      var ch := msg[|msg| - 1];
      if ch == '\n' then GridOf(prefix, cols, font)
      else GridOf(prefix, cols, font)[Key(CursorAfter(prefix, cols)) := Lookup(font, ch)]
  }

  /**
   * The layout loop of `lcd.Draw`. Every stored key has a non-negative row
   * and, when `cols > 0`, a column in [0, cols); the row is not bounded.
   */
  method BuildGrid(message: string, cols: int, font: FontTable) returns (glyphs: Grid)
    ensures glyphs == GridOf(message, cols, font)
    ensures forall k :: k in glyphs ==> k.0 >= 0
    ensures cols > 0 ==> forall k :: k in glyphs ==> 0 <= k.1 < cols
  {
    glyphs := map[];
    var row, col := 0, 0;
    var i := 0;
    while i < |message|
      invariant 0 <= i <= |message|
      invariant glyphs == GridOf(message[..i], cols, font)
      invariant Cursor(row, col) == CursorAfter(message[..i], cols)
      invariant row >= 0 && col >= 0
      invariant cols > 0 ==> col < cols
      invariant forall k :: k in glyphs ==> 0 <= k.0 && 0 <= k.1 && (k.0 < row || (k.0 == row && k.1 < col))
      invariant cols > 0 ==> forall k :: k in glyphs ==> k.1 < cols
    {
      var ch := message[i];
      assert message[..i + 1][..i] == message[..i];
      if ch == '\n' {
        row := row + 1;
        col := 0;
      } else {
        if ch in font {
          glyphs := glyphs[(row, col) := font[ch]];
        } else {
          glyphs := glyphs[(row, col) := if '?' in font then font['?'] else Blank];
        }
        col := col + 1;
        if col >= cols {
          row := row + 1;
          col := 0;
        }
      }
      i := i + 1;
    }
    assert message[..i] == message;
  }

  /** Lexicographic (row, column) order: the order in which the cursor visits cells. */
  predicate Before(k: (int, int), c: Cursor)
  {
    k.0 < c.row || (k.0 == c.row && k.1 < c.col)
  }

  /** A newline moves the cursor to column 0 of the next row and stores nothing, whatever the column. */
  lemma NewlineMovesDown(msg: string, cols: int, font: FontTable)
    ensures CursorAfter(msg + "\n", cols) == Cursor(CursorAfter(msg, cols).row + 1, 0)
    ensures GridOf(msg + "\n", cols, font) == GridOf(msg, cols, font)
  {
    assert (msg + "\n")[..|msg|] == msg;
  }

  /** With cols > 0 the cursor column stays in [0, cols) and the row is never negative. */
  lemma {:induction false} CursorInRange(msg: string, cols: int)
    requires cols > 0
    ensures 0 <= CursorAfter(msg, cols).col < cols
    ensures CursorAfter(msg, cols).row >= 0
  {
    if msg != [] {
      CursorInRange(msg[..|msg| - 1], cols);
    }
  }

  /**
   * Every stored key lies strictly before the cursor, has a non-negative row
   * and column, and (when cols > 0) a column below cols.
   */
  lemma {:induction false} KeysBeforeCursor(msg: string, cols: int, font: FontTable)
    ensures CursorAfter(msg, cols).row >= 0 && CursorAfter(msg, cols).col >= 0
    ensures forall k :: k in GridOf(msg, cols, font) ==>
      Before(k, CursorAfter(msg, cols)) && k.0 >= 0 && k.1 >= 0 && (cols > 0 ==> k.1 < cols)
  {
    if msg != [] {
      var prefix := msg[..|msg| - 1];
      KeysBeforeCursor(prefix, cols, font);
      if cols > 0 {
        CursorInRange(prefix, cols);
      }
    }
  }

  /** The cursor only moves forward: an earlier cursor lies before a later one. */
  lemma {:induction false} CursorMovesForward(msg: string, cols: int, i: int, j: int)
    requires 0 <= i < j <= |msg|
    ensures Before(Key(CursorAt(msg, cols, i)), CursorAt(msg, cols, j))
    decreases j
  {
    assert msg[..j][..j - 1] == msg[..j - 1];
    if i < j - 1 {
      CursorMovesForward(msg, cols, i, j - 1);
    }
  }

  /** Each non-newline character is stored at the cursor it was processed at, as its looked-up glyph. */
  lemma {:induction false} CharStoredAtCursor(msg: string, cols: int, font: FontTable, i: int)
    requires 0 <= i < |msg| && msg[i] != '\n'
    ensures Key(CursorAt(msg, cols, i)) in GridOf(msg, cols, font)
    ensures GridOf(msg, cols, font)[Key(CursorAt(msg, cols, i))] == Lookup(font, msg[i])
    decreases |msg|
  {
    var n := |msg|;
    var prefix := msg[..n - 1];
    if i < n - 1 {
      assert prefix[..i] == msg[..i];
      CharStoredAtCursor(prefix, cols, font, i);
      CursorMovesForward(msg, cols, i, n - 1);
    }
  }

  /** Every stored key is the cursor of some non-newline character. */
  lemma {:induction false} KeyFromChar(msg: string, cols: int, font: FontTable, k: (int, int))
    requires k in GridOf(msg, cols, font)
    ensures exists i :: 0 <= i < |msg| && msg[i] != '\n' && Key(CursorAt(msg, cols, i)) == k
    decreases |msg|
  {
    var n := |msg|;
    var prefix := msg[..n - 1];
    if msg[n - 1] != '\n' && k == Key(CursorAfter(prefix, cols)) {
      assert Key(CursorAt(msg, cols, n - 1)) == k;
    } else {
      KeyFromChar(prefix, cols, font, k);
      var i :| 0 <= i < |prefix| && prefix[i] != '\n' && Key(CursorAt(prefix, cols, i)) == k;
      assert prefix[..i] == msg[..i];
      assert Key(CursorAt(msg, cols, i)) == k;
    }
  }

  /**
   * The grid holds exactly the cursors of the non-newline characters, each
   * holding that character's looked-up glyph; no character overwrites another.
   */
  lemma GridContents(msg: string, cols: int, font: FontTable)
    ensures forall i :: 0 <= i < |msg| && msg[i] != '\n' ==>
      Key(CursorAt(msg, cols, i)) in GridOf(msg, cols, font) &&
      GridOf(msg, cols, font)[Key(CursorAt(msg, cols, i))] == Lookup(font, msg[i])
    ensures forall k :: k in GridOf(msg, cols, font) ==>
      exists i :: 0 <= i < |msg| && msg[i] != '\n' && Key(CursorAt(msg, cols, i)) == k
  {
    forall i | 0 <= i < |msg| && msg[i] != '\n'
      ensures Key(CursorAt(msg, cols, i)) in GridOf(msg, cols, font) &&
              GridOf(msg, cols, font)[Key(CursorAt(msg, cols, i))] == Lookup(font, msg[i])
    {
      CharStoredAtCursor(msg, cols, font, i);
    }
    forall k | k in GridOf(msg, cols, font)
      ensures exists i :: 0 <= i < |msg| && msg[i] != '\n' && Key(CursorAt(msg, cols, i)) == k
    {
      KeyFromChar(msg, cols, font, k);
    }
  }

  /** Division with remainder is unique. */
  lemma DivModUnique(n: int, cols: int, a: int, b: int)
    requires cols > 0 && n == a * cols + b && 0 <= b < cols
    ensures n / cols == a && n % cols == b
  {
    var q, r := n / cols, n % cols;
    assert n == q * cols + r && 0 <= r < cols;
    assert (a - q) * cols == r - b;
    if a - q >= 1 {
      MulStep(a - q, cols);
    } else if q - a >= 1 {
      MulStep(q - a, cols);
    }
  }

  lemma DivModNext(i: int, cols: int)
    requires cols > 0 && i >= 0
    ensures i % cols + 1 >= cols ==> (i + 1) / cols == i / cols + 1 && (i + 1) % cols == 0
    ensures i % cols + 1 < cols ==> (i + 1) / cols == i / cols && (i + 1) % cols == i % cols + 1
  {
    var q, r := i / cols, i % cols;
    assert i == q * cols + r && 0 <= r < cols;
    if r + 1 >= cols {
      assert i + 1 == (q + 1) * cols + 0;
      DivModUnique(i + 1, cols, q + 1, 0);
    } else {
      DivModUnique(i + 1, cols, q, r + 1);
    }
  }

  /** Without newlines, character i is processed at row i / cols, column i % cols. */
  lemma {:induction false} CursorWithoutNewlines(msg: string, cols: int, i: int)
    requires cols > 0 && 0 <= i <= |msg|
    requires forall j :: 0 <= j < |msg| ==> msg[j] != '\n'
    ensures CursorAt(msg, cols, i) == Cursor(i / cols, i % cols)
  {
    if i > 0 {
      CursorWithoutNewlines(msg, cols, i - 1);
      var prev := msg[..i];
      assert prev[..i - 1] == msg[..i - 1];
      assert prev[i - 1] != '\n';
      var c := CursorAfter(prev[..i - 1], cols);
      assert c == Cursor((i - 1) / cols, (i - 1) % cols);
      assert CursorAfter(prev, cols) == Advance(c, prev[i - 1], cols);
      DivModNext(i - 1, cols);
    }
  }

  /**
   * Without newlines, character i is stored at (i / cols, i % cols) as its
   * looked-up glyph; rows are not limited, so a long message reaches rows
   * beyond the display.
   */
  lemma PlacementWithoutNewlines(msg: string, cols: int, font: FontTable, i: int)
    requires cols > 0 && 0 <= i < |msg|
    requires forall j :: 0 <= j < |msg| ==> msg[j] != '\n'
    ensures (i / cols, i % cols) in GridOf(msg, cols, font)
    ensures GridOf(msg, cols, font)[(i / cols, i % cols)] == Lookup(font, msg[i])
  {
    CursorWithoutNewlines(msg, cols, i);
    CharStoredAtCursor(msg, cols, font, i);
  }

  /** A character missing from the table stores the same glyph as a literal '?'. */
  lemma {:induction false} UnknownAsQuestionMark(msg: string, msg': string, cols: int, font: FontTable)
    requires |msg'| == |msg|
    requires forall i :: 0 <= i < |msg| ==>
      msg'[i] == msg[i] || (msg[i] !in font && msg[i] != '\n' && msg'[i] == '?')
    ensures CursorAfter(msg', cols) == CursorAfter(msg, cols)
    ensures GridOf(msg', cols, font) == GridOf(msg, cols, font)
    decreases |msg|
  {
    if msg != [] {
      var n := |msg|;
      UnknownAsQuestionMark(msg[..n - 1], msg'[..n - 1], cols, font);
    }
  }

  /**
   * From column 0 of some row R, exactly cols characters without newlines
   * fill row R, wrap to row R + 1, and a following newline moves on to row
   * R + 2: row R + 1 stays empty.
   */
  lemma FullRowThenNewline(p: string, s: string, cols: int, font: FontTable)
    requires cols > 0 && CursorAfter(p, cols).col == 0
    requires |s| == cols && forall j :: 0 <= j < |s| ==> s[j] != '\n'
    ensures CursorAfter(p + s + "\n", cols) == Cursor(CursorAfter(p, cols).row + 2, 0)
    ensures forall c :: 0 <= c < cols ==> (CursorAfter(p, cols).row, c) in GridOf(p + s + "\n", cols, font)
    ensures forall k :: k in GridOf(p + s + "\n", cols, font) ==> k.0 <= CursorAfter(p, cols).row
  {
    var R := CursorAfter(p, cols).row;
    KeysBeforeCursor(p, cols, font);
    FillRow(p, s, cols, font, cols);
    assert s[..cols] == s;
    NewlineMovesDown(p + s, cols, font);
  }

  lemma {:induction false} FillRow(p: string, s: string, cols: int, font: FontTable, j: int)
    requires cols > 0 && CursorAfter(p, cols).col == 0
    requires forall k :: k in GridOf(p, cols, font) ==> k.0 < CursorAfter(p, cols).row
    requires |s| == cols && forall j :: 0 <= j < |s| ==> s[j] != '\n'
    requires 0 <= j <= cols
    ensures CursorAfter(p + s[..j], cols)
         == if j < cols then Cursor(CursorAfter(p, cols).row, j) else Cursor(CursorAfter(p, cols).row + 1, 0)
    ensures forall c :: 0 <= c < j ==> (CursorAfter(p, cols).row, c) in GridOf(p + s[..j], cols, font)
    ensures forall k :: k in GridOf(p + s[..j], cols, font) ==>
      k.0 < CursorAfter(p, cols).row || (k.0 == CursorAfter(p, cols).row && 0 <= k.1 < j)
  {
    if j == 0 {
      assert p + s[..0] == p;
    } else {
      FillRow(p, s, cols, font, j - 1);
      var q := p + s[..j];
      assert q[..|q| - 1] == p + s[..j - 1];
      assert q[|q| - 1] == s[j - 1];
    }
  }

  /** "A\nB" puts 'A' at (0, 0) and 'B' at (1, 0), and nothing else. */
  lemma NewlineExample(cols: int, font: FontTable)
    requires cols >= 2
    ensures GridOf("A\nB", cols, font) == map[(0, 0) := Lookup(font, 'A'), (1, 0) := Lookup(font, 'B')]
  {
    assert "A"[..0] == [];
    assert CursorAfter("A", cols) == Cursor(0, 1);
    assert GridOf("A", cols, font) == map[(0, 0) := Lookup(font, 'A')];
    assert "A\n"[..1] == "A";
    assert CursorAfter("A\n", cols) == Cursor(1, 0);
    assert GridOf("A\n", cols, font) == GridOf("A", cols, font);
    assert "A\nB"[..2] == "A\n";
  }

  /** On a 16-column display "HELLO" fills cells (0, 0) .. (0, 4), and nothing else. */
  lemma HelloExample(font: FontTable)
    ensures GridOf("HELLO", 16, font)
         == map[(0, 0) := Lookup(font, 'H'), (0, 1) := Lookup(font, 'E'), (0, 2) := Lookup(font, 'L'),
                (0, 3) := Lookup(font, 'L'), (0, 4) := Lookup(font, 'O')]
  {
    var m := "HELLO";
    forall i | 0 <= i < 5 ensures CursorAt(m, 16, i) == Cursor(0, i) {
      CursorWithoutNewlines(m, 16, i);
    }
    assert m[..1][..0] == [] && m[..2][..1] == m[..1] && m[..3][..2] == m[..2];
    assert m[..4][..3] == m[..3] && m[..5][..4] == m[..4] && m[..5] == m;
    assert GridOf(m[..1], 16, font) == map[(0, 0) := Lookup(font, 'H')];
    assert GridOf(m[..2], 16, font) == map[(0, 0) := Lookup(font, 'H'), (0, 1) := Lookup(font, 'E')];
    assert GridOf(m[..3], 16, font)
        == map[(0, 0) := Lookup(font, 'H'), (0, 1) := Lookup(font, 'E'), (0, 2) := Lookup(font, 'L')];
    assert GridOf(m[..4], 16, font)
        == map[(0, 0) := Lookup(font, 'H'), (0, 1) := Lookup(font, 'E'), (0, 2) := Lookup(font, 'L'),
               (0, 3) := Lookup(font, 'L')];
  }
}
