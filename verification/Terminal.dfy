/** One text terminal of the virtual console, and the unbounded document it is a window on. */
module Terminal {
  import opened Bytes

  const COLS: int := 80
  /** Rows that hold text; the 25th row is the status bar. */
  const TEXT_ROWS: int := 24
  /** Bytes in a row: a character and an attribute for each column. */
  const ROW_BYTES: int := 160

  type Row = seq<byte>

  /** Text rows, cursor column, cursor row, and colours. */
  datatype Term = Term(rows: seq<Row>, cx: int, cy: int, fg: byte, bg: byte)

  predicate ValidTerm(t: Term) {
    |t.rows| == TEXT_ROWS && (forall i :: 0 <= i < TEXT_ROWS ==> |t.rows[i]| == ROW_BYTES) &&
    0 <= t.cx < COLS && 0 <= t.cy < TEXT_ROWS && t.fg < 16 && t.bg < 16
  }

  /** A character with its colours, as two bytes. */
  function Cell(ch: byte, fg: byte, bg: byte): (c: seq<byte>)
    requires fg < 16 && bg < 16
    ensures |c| == 2
  {
    [ch, fg + 16 * bg]
  }

  /** The row with the two bytes of one column replaced. */
  function SetCell(r: Row, x: int, cell: seq<byte>): (s: Row)
    requires |r| == ROW_BYTES && 0 <= x < COLS && |cell| == 2
    ensures |s| == ROW_BYTES
  {
    r[2 * x := cell[0]][2 * x + 1 := cell[1]]
  }

  /** A row of eighty equal cells. */
  function Striped(ch: byte, attr: byte): (r: Row)
    ensures |r| == ROW_BYTES
  {
    seq(ROW_BYTES, i => if i % 2 == 0 then ch else attr)
  }

  /** A row of NUL characters in the foreground colour; the background colour is not used. */
  function BlankRow(fg: byte): (r: Row)
    ensures |r| == ROW_BYTES
  {
    Striped(0, fg)
  }

  /** A row of spaces in both colours. */
  function SpaceRow(fg: byte, bg: byte): (r: Row)
    requires fg < 16 && bg < 16
    ensures |r| == ROW_BYTES
  {
    Striped(32, fg + 16 * bg)
  }

  /** moveline: one row down, scrolling when the last text row is passed. */
  function Down(t: Term): (r: Term)
    requires ValidTerm(t)
    ensures ValidTerm(r)
  {
    if t.cy + 1 == TEXT_ROWS then t.(rows := t.rows[1..] + [BlankRow(t.fg)]) else t.(cy := t.cy + 1)
  }

  /** The next tab stop: the next multiple of seven. */
  function TabStop(cx: int): int {
    (cx / 7 + 1) * 7
  }

  /** The terminal with a character under the cursor. */
  function Typed(t: Term, ch: byte): (r: Term)
    requires ValidTerm(t)
    ensures ValidTerm(r) && r.cx == t.cx && r.cy == t.cy && r.fg == t.fg && r.bg == t.bg
  {
    t.(rows := t.rows[t.cy := SetCell(t.rows[t.cy], t.cx, Cell(ch, t.fg, t.bg))])
  }

  /** putchar */
  function Put(t: Term, ch: byte): (r: Term)
    requires ValidTerm(t)
    ensures ValidTerm(r)
  {
    if ch == 8 then (if t.cx > 0 then t.(cx := t.cx - 1) else t)
    else if ch == 9 then (if TabStop(t.cx) >= COLS then Down(t.(cx := 0)) else t.(cx := TabStop(t.cx)))
    else if ch == 10 then Down(t).(cx := 0)
    else if ch == 13 then t.(cx := 0)
    else
      var u := Typed(t, ch);
      if t.cx + 1 == COLS then Down(u.(cx := 0)) else u.(cx := t.cx + 1)
  }

  function SpaceRows(fg: byte, bg: byte): (rows: seq<Row>)
    requires fg < 16 && bg < 16
    ensures |rows| == TEXT_ROWS && forall i :: 0 <= i < TEXT_ROWS ==> rows[i] == SpaceRow(fg, bg)
  {
    seq(TEXT_ROWS, i => SpaceRow(fg, bg))
  }

  /** clearscreen */
  function Clear(t: Term): (r: Term)
    requires ValidTerm(t)
    ensures ValidTerm(r)
  {
    t.(rows := SpaceRows(t.fg, t.bg), cx := 0, cy := 0)
  }

  function PutAll(t: Term, s: seq<byte>): (r: Term)
    requires ValidTerm(t)
    ensures ValidTerm(r)
  {
    if |s| == 0 then t else Put(PutAll(t, s[..|s| - 1]), s[|s| - 1])
  }

  // ----- What typing and clearing do, byte by byte

  /** r is t with the cursor one row further down; below row 23 there is a new row of NULs in the foreground colour, and
      everything else moves up. */
  ghost predicate OneRowDown(t: Term, r: Term) {
    r.fg == t.fg && r.bg == t.bg && |t.rows| == 24 &&
    if t.cy < 23 then r.cy == t.cy + 1 && r.rows == t.rows
    else
      && r.cy == 23 && |r.rows| == 24 && (forall y :: 0 <= y < 23 ==> r.rows[y] == t.rows[y + 1])
      && |r.rows[23]| == 160 && forall i :: 0 <= i < 160 ==> r.rows[23][i] == if i % 2 == 0 then 0 else t.fg
  }

  /** u is t with ch and its colours in the two bytes under the cursor, and no other byte changed. */
  ghost predicate TypedAt(t: Term, u: Term, ch: byte) {
    u.cx == t.cx && u.cy == t.cy && u.fg == t.fg && u.bg == t.bg && |u.rows| == |t.rows| == 24 &&
    forall y :: 0 <= y < 24 ==> RowTyped(t, u, ch, y)
  }

  ghost predicate RowTyped(t: Term, u: Term, ch: byte, y: int)
    requires 0 <= y < |t.rows| == |u.rows|
  {
    |t.rows[y]| == |u.rows[y]| == 160 &&
    forall i :: 0 <= i < 160 ==>
      u.rows[y][i] == if y != t.cy || i / 2 != t.cx then t.rows[y][i] else if i % 2 == 0 then ch else t.fg + 16 * t.bg
  }

  lemma DownExact(t: Term)
    requires ValidTerm(t)
    ensures OneRowDown(t, Down(t)) && Down(t).cx == t.cx
  {
  }

  lemma TypedExact(t: Term, ch: byte)
    requires ValidTerm(t)
    ensures TypedAt(t, Typed(t, ch), ch)
  {
    var u := Typed(t, ch);
    forall y | 0 <= y < 24 ensures RowTyped(t, u, ch, y) {
    }
  }

  /** Backspace, carriage return and newline. */
  lemma PutControl(t: Term)
    requires ValidTerm(t)
    ensures Put(t, 8) == t.(cx := if t.cx > 0 then t.cx - 1 else 0) && Put(t, 13) == t.(cx := 0)
    ensures OneRowDown(t, Put(t, 10)) && Put(t, 10).cx == 0
  {
    hide Down;
    DownExact(t);
  }

  /** A tab goes to the next column divisible by seven, or to the next row when that is past column 79. */
  lemma PutTab(t: Term, x: int)
    requires ValidTerm(t) && t.cx < x <= t.cx + 7 && x % 7 == 0
    ensures if x < 80 then Put(t, 9) == t.(cx := x) else OneRowDown(t, Put(t, 9)) && Put(t, 9).cx == 0
  {
    hide Down;
    DownExact(t.(cx := 0));
  }

  /** Any other byte is stored under the cursor, which moves on by one column, to the next row after column 79. */
  lemma PutCharacter(t: Term, ch: byte) returns (u: Term)
    requires ValidTerm(t) && ch != 8 && ch != 9 && ch != 10 && ch != 13
    ensures TypedAt(t, u, ch)
    ensures if t.cx < 79 then Put(t, ch) == u.(cx := t.cx + 1) else OneRowDown(u, Put(t, ch)) && Put(t, ch).cx == 0
  {
    hide Down, Typed;
    TypedExact(t, ch);
    u := Typed(t, ch);
    DownExact(u.(cx := 0));
  }

  /** Clearing puts spaces in the current colours everywhere and the cursor home. */
  lemma ClearExact(t: Term)
    requires ValidTerm(t)
    ensures var r := Clear(t);
      && r.cx == 0 && r.cy == 0 && r.fg == t.fg && r.bg == t.bg && |r.rows| == 24
      && forall y :: 0 <= y < 24 ==> IsClear(r.rows[y], t.fg, t.bg)
  {
  }

  predicate IsClear(row: Row, fg: byte, bg: byte) {
    |row| == 160 && forall i :: 0 <= i < 160 ==> row[i] == if i % 2 == 0 then 32 else fg + 16 * bg
  }

  // ----- The document

  /** Lines without end, and the place where the next character goes. */
  datatype Doc = Doc(lines: seq<Row>, line: int, col: int, fg: byte, bg: byte)

  predicate ValidDoc(d: Doc) {
    |d.lines| >= TEXT_ROWS && (forall i :: 0 <= i < |d.lines| ==> |d.lines[i]| == ROW_BYTES) &&
    |d.lines| - TEXT_ROWS <= d.line < |d.lines| && 0 <= d.col < COLS && d.fg < 16 && d.bg < 16
  }

  /** To the next line, which is added when it does not exist; nothing ever scrolls away. */
  function NextLine(d: Doc): (r: Doc)
    requires ValidDoc(d)
    ensures ValidDoc(r)
  {
    d.(line := d.line + 1, lines := if d.line + 1 == |d.lines| then d.lines + [BlankRow(d.fg)] else d.lines)
  }

  function DocTyped(d: Doc, ch: byte): (r: Doc)
    requires ValidDoc(d)
    ensures ValidDoc(r) && r.line == d.line && r.col == d.col && r.fg == d.fg && r.bg == d.bg
  {
    d.(lines := d.lines[d.line := SetCell(d.lines[d.line], d.col, Cell(ch, d.fg, d.bg))])
  }

  function DocPut(d: Doc, ch: byte): (r: Doc)
    requires ValidDoc(d)
    ensures ValidDoc(r)
  {
    if ch == 8 then (if d.col > 0 then d.(col := d.col - 1) else d)
    else if ch == 9 then (if TabStop(d.col) >= COLS then NextLine(d.(col := 0)) else d.(col := TabStop(d.col)))
    else if ch == 10 then NextLine(d.(col := 0))
    else if ch == 13 then d.(col := 0)
    else
      var e := DocTyped(d, ch);
      if d.col + 1 == COLS then NextLine(e.(col := 0)) else e.(col := d.col + 1)
  }

  function DocPutAll(d: Doc, s: seq<byte>): (r: Doc)
    requires ValidDoc(d)
    ensures ValidDoc(r)
  {
    if |s| == 0 then d else DocPut(DocPutAll(d, s[..|s| - 1]), s[|s| - 1])
  }

  function DocOf(t: Term): (d: Doc)
    requires ValidTerm(t)
    ensures ValidDoc(d)
  {
    Doc(t.rows, t.cy, t.cx, t.fg, t.bg)
  }

  /** What a terminal shows of the document: its last twenty-four lines. */
  function Window(d: Doc): (t: Term)
    requires ValidDoc(d)
    ensures ValidTerm(t)
  {
    var top := |d.lines| - TEXT_ROWS;
    Term(d.lines[top..], d.col, d.line - top, d.fg, d.bg)
  }

  lemma WindowDown(d: Doc)
    requires ValidDoc(d)
    ensures Window(NextLine(d)) == Down(Window(d))
  {
    var e := NextLine(d);
    assert Window(e).rows == Down(Window(d)).rows;
  }

  /** Typing into the window of a document is the window of typing into the document. */
  lemma WindowPut(d: Doc, ch: byte)
    requires ValidDoc(d)
    ensures Window(DocPut(d, ch)) == Put(Window(d), ch)
  {
    hide Window, DocPut, Put;
    if ch == 9 {
      WindowTab(d);
    } else if ch == 8 || ch == 10 || ch == 13 {
      WindowMove(d, ch);
    } else {
      WindowChar(d, ch);
    }
  }

  lemma WindowTab(d: Doc)
    requires ValidDoc(d)
    ensures Window(DocPut(d, 9)) == Put(Window(d), 9)
  {
    hide BlankRow, SetCell, Cell, NextLine, Down, Typed, DocTyped;
    WindowDown(d.(col := 0));
  }

  lemma WindowMove(d: Doc, ch: byte)
    requires ValidDoc(d) && (ch == 8 || ch == 10 || ch == 13)
    ensures Window(DocPut(d, ch)) == Put(Window(d), ch)
  {
    hide BlankRow, SetCell, Cell, TabStop, NextLine, Down;
    if ch == 10 {
      WindowDown(d.(col := 0));
      DownKeepsColumn(Window(d));
    }
  }

  lemma WindowChar(d: Doc, ch: byte)
    requires ValidDoc(d) && ch != 8 && ch != 9 && ch != 10 && ch != 13
    ensures Window(DocPut(d, ch)) == Put(Window(d), ch)
  {
    hide NextLine, Down, Typed, DocTyped, Window, ValidTerm, ValidDoc;
    CellInWindow(d, ch);
    WindowCursor(d);
    WindowColumn(DocTyped(d, ch), if d.col + 1 == COLS then 0 else d.col + 1);
    WindowDown(DocTyped(d, ch).(col := 0));
  }

  lemma WindowCursor(d: Doc)
    requires ValidDoc(d)
    ensures 0 <= Window(d).cx == d.col < COLS
  {
  }

  lemma WindowColumn(d: Doc, x: int)
    requires ValidDoc(d) && 0 <= x < COLS
    ensures ValidDoc(d.(col := x)) && Window(d.(col := x)) == Window(d).(cx := x)
  {
  }

  lemma DownKeepsColumn(t: Term)
    requires ValidTerm(t)
    ensures Down(t).(cx := 0) == Down(t.(cx := 0))
  {
  }

  lemma CellInWindow(d: Doc, ch: byte)
    requires ValidDoc(d)
    ensures Window(DocTyped(d, ch)) == Typed(Window(d), ch)
  {
    hide SetCell, Cell;
    var top := |d.lines| - TEXT_ROWS;
    var row := SetCell(d.lines[d.line], d.col, Cell(ch, d.fg, d.bg));
    assert d.lines[d.line := row][top..] == d.lines[top..][d.line - top := row];
  }

  /** For every stream of bytes the screen shows the last twenty-four lines of the document, cursor included. */
  lemma {:induction false} ScreenIsWindow(t: Term, s: seq<byte>)
    requires ValidTerm(t)
    ensures PutAll(t, s) == Window(DocPutAll(DocOf(t), s))
    decreases |s|
  {
    hide Put, DocPut;
    if |s| == 0 {
      assert t.rows[0..] == t.rows;
    } else {
      ScreenIsWindow(t, s[..|s| - 1]);
      WindowPut(DocPutAll(DocOf(t), s[..|s| - 1]), s[|s| - 1]);
    }
  }

  // ----- Eight terminals

  const TERMINALS: int := 8

  datatype Event = Type(ch: byte) | Wipe | Switch(to: int)

  datatype Screens = Screens(terms: seq<Term>, current: int)

  predicate ValidScreens(s: Screens) {
    |s.terms| == TERMINALS && 0 <= s.current < TERMINALS && forall i :: 0 <= i < TERMINALS ==> ValidTerm(s.terms[i])
  }

  function Step(s: Screens, e: Event): (r: Screens)
    requires ValidScreens(s)
    ensures ValidScreens(r)
  {
    match e
    case Type(ch) => s.(terms := s.terms[s.current := Put(s.terms[s.current], ch)])
    case Wipe => s.(terms := s.terms[s.current := Clear(s.terms[s.current])])
    case Switch(to) => if 0 <= to < TERMINALS then s.(current := to) else s
  }

  /** There are eight terminals, and events for a ninth do nothing. */
  lemma SwitchExact(s: Screens, to: int)
    requires ValidScreens(s)
    ensures |s.terms| == 8 && Step(s, Switch(to)) == s.(current := if 0 <= to < 8 then to else s.current)
  {
  }

  function RunAll(s: Screens, es: seq<Event>): (r: Screens)
    requires ValidScreens(s)
    ensures ValidScreens(r)
  {
    if |es| == 0 then s else Step(RunAll(s, es[..|es| - 1]), es[|es| - 1])
  }

  /** What an event does to a terminal on its own, which knows nothing of switching. */
  function One(t: Term, e: Event): (r: Term)
    requires ValidTerm(t)
    ensures ValidTerm(r)
  {
    match e
    case Type(ch) => Put(t, ch)
    case Wipe => Clear(t)
    case Switch(_) => t
  }

  function RunOne(t: Term, es: seq<Event>): (r: Term)
    requires ValidTerm(t)
    ensures ValidTerm(r)
  {
    if |es| == 0 then t else One(RunOne(t, es[..|es| - 1]), es[|es| - 1])
  }

  /** Which terminal is current after the events. */
  function CurrentAfter(current: int, es: seq<Event>): int {
    if |es| == 0 then current
    else
      var e := es[|es| - 1];
      if e.Switch? && 0 <= e.to < TERMINALS then e.to else CurrentAfter(current, es[..|es| - 1])
  }

  /** The events that were meant for terminal k, because it was current when they happened. */
  function Mine(current: int, es: seq<Event>, k: int): seq<Event> {
    if |es| == 0 then []
    else
      var before := es[..|es| - 1];
      var e := es[|es| - 1];
      Mine(current, before, k) + (if !e.Switch? && CurrentAfter(current, before) == k then [e] else [])
  }

  lemma {:induction false} CurrentIs(s: Screens, es: seq<Event>)
    requires ValidScreens(s)
    ensures RunAll(s, es).current == CurrentAfter(s.current, es)
    decreases |es|
  {
    hide Put, Clear, ValidTerm;
    if |es| > 0 {
      CurrentIs(s, es[..|es| - 1]);
    }
  }

  /** What one event makes of terminal k: its own doing if it is current, nothing otherwise. */
  lemma StepOne(s: Screens, e: Event, k: int)
    requires ValidScreens(s) && 0 <= k < TERMINALS
    ensures Step(s, e).terms[k] == if s.current == k && !e.Switch? then One(s.terms[k], e) else s.terms[k]
  {
    hide Put, Clear, ValidTerm;
  }

  /** Events of its own drive a terminal on its own. */
  lemma RunOneMore(t: Term, es: seq<Event>, e: Event)
    requires ValidTerm(t)
    ensures RunOne(t, es + [e]) == One(RunOne(t, es), e)
  {
    hide Put, Clear, ValidTerm;
    assert (es + [e])[..|es|] == es;
  }

  /** The eight terminals are independent: each one is what it would be alone, fed with its own events only. */
  lemma {:induction false} Independent(s: Screens, es: seq<Event>, k: int)
    requires ValidScreens(s) && 0 <= k < TERMINALS
    ensures RunAll(s, es).terms[k] == RunOne(s.terms[k], Mine(s.current, es, k))
    decreases |es|
  {
    assert ValidTerm(s.terms[k]);
    hide One, Step, ValidTerm, RunOne, CurrentAfter;
    if |es| == 0 {
      RunNone(s.terms[k]);
    } else {
      var before, e := es[..|es| - 1], es[|es| - 1];
      Independent(s, before, k);
      CurrentIs(s, before);
      StepOne(RunAll(s, before), e, k);
      RunOneMore(s.terms[k], Mine(s.current, before, k), e);
      assert Mine(s.current, before, k) + [] == Mine(s.current, before, k);
    }
  }

  lemma RunNone(t: Term)
    requires ValidTerm(t)
    ensures RunOne(t, []) == t
  {
  }
}
