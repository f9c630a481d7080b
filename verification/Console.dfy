/** The virtual console: one framebuffer shared by eight terminals. */
module Console {
  import opened Bytes
  import opened Sequences
  import opened Terminal

  const VGA_BASE: int := 0xB8000
  const VGA_ROWS: int := 25
  /** The row of the status bar. */
  const STATUS: int := 24
  /** Bytes in the framebuffer. */
  const VGA_SIZE: int := 4000

  // ----- The framebuffer device

  /** How many of len bytes at offt a read or write moves: clipped at the end, none past it or when the end address
      wraps. */
  function Clip(offt: word, len: word): (n: int)
    ensures 0 <= n <= len && (n > 0 ==> offt + n <= VGA_SIZE)
    ensures offt + len <= VGA_SIZE ==> n == len
  {
    if offt >= VGA_SIZE || VGA_BASE + offt + len >= 0x1_0000_0000 then 0
    else if offt + len >= VGA_SIZE then VGA_SIZE - offt else len
  }

  /** As long as the end address does not wrap, exactly the bytes below 4000 are moved; otherwise none. */
  lemma ClipExact(offt: word, len: word, x: int)
    requires offt <= x < offt + len
    ensures 0xB8000 + offt + len < 0x1_0000_0000 ==> (x < offt + Clip(offt, len) <==> x < 4000)
    ensures 0xB8000 + offt + len >= 0x1_0000_0000 ==> Clip(offt, len) == 0
  {
  }

  lemma SpliceStep(m: seq<byte>, off: int, d: seq<byte>, n: int)
    requires 0 <= off && 0 <= n < |d| && off + n < |m|
    ensures Splice(m, off, d[..n + 1]) == Splice(m, off, d[..n])[off + n := d[n]]
  {
    hide Splice;
  }

  method VgafbRead(fb: array<byte>, offt: word, len: word) returns (buf: seq<byte>)
    requires fb.Length == VGA_SIZE
    ensures |buf| == Clip(offt, len) && (|buf| > 0 ==> buf == fb[offt..offt + |buf|])
  {
    buf := [];
    if offt < VGA_SIZE {
      var start := VGA_BASE + offt;
      var end := Wrap(start + len);
      if end >= VGA_BASE + VGA_SIZE {
        end := VGA_BASE + VGA_SIZE;
      }
      var ptr := start;
      while ptr < end
        invariant start <= ptr && (ptr <= end || ptr == start) && |buf| == ptr - start
        invariant ptr <= VGA_BASE + VGA_SIZE && buf == fb[offt..offt + |buf|]
      {
        buf := buf + [fb[ptr - VGA_BASE]];
        ptr := ptr + 1;
      }
    }
  }

  method VgafbWrite(fb: array<byte>, buf: seq<byte>, offt: word, len: word) returns (n: int)
    requires fb.Length == VGA_SIZE && len <= |buf|
    modifies fb
    ensures n == Clip(offt, len)
    ensures fb[..] == if n > 0 then Splice(old(fb[..]), offt, buf[..n]) else old(fb[..])
  {
    hide Splice;
    n := 0;
    if offt < VGA_SIZE {
      var start := VGA_BASE + offt;
      var end := Wrap(start + len);
      if end >= VGA_BASE + VGA_SIZE {
        end := VGA_BASE + VGA_SIZE;
      }
      var ptr := start;
      while ptr < end
        invariant start <= ptr && (ptr <= end || ptr == start) && n == ptr - start
        invariant ptr <= VGA_BASE + VGA_SIZE && n <= len
        invariant fb[..] == Splice(old(fb[..]), offt, buf[..n])
      {
        SpliceStep(old(fb[..]), offt, buf, n);
        fb[ptr - VGA_BASE] := buf[n];
        n := n + 1;
        ptr := ptr + 1;
      }
    }
  }

  // ----- Rows and cells in the framebuffer

  function RowAt(m: seq<byte>, r: int): (row: Row)
    requires |m| == VGA_SIZE && 0 <= r < VGA_ROWS
    ensures |row| == ROW_BYTES
  {
    m[ROW_BYTES * r..ROW_BYTES * r + ROW_BYTES]
  }

  function TextRows(m: seq<byte>): (rows: seq<Row>)
    requires |m| == VGA_SIZE
    ensures |rows| == TEXT_ROWS && forall r :: 0 <= r < TEXT_ROWS ==> rows[r] == RowAt(m, r) && |rows[r]| == ROW_BYTES
  {
    seq(TEXT_ROWS, r requires 0 <= r < TEXT_ROWS => RowAt(m, r))
  }

  /** Writing a whole row changes that row only; the status row is no text row. */
  lemma SpliceRow(m: seq<byte>, r: int, d: Row)
    requires |m| == VGA_SIZE && 0 <= r < VGA_ROWS && |d| == ROW_BYTES
    ensures TextRows(Splice(m, ROW_BYTES * r, d)) == if r < TEXT_ROWS then TextRows(m)[r := d] else TextRows(m)
    ensures r < TEXT_ROWS ==> RowAt(Splice(m, ROW_BYTES * r, d), STATUS) == RowAt(m, STATUS)
  {
    hide Splice;
    var s := Splice(m, ROW_BYTES * r, d);
    forall i | 0 <= i < TEXT_ROWS ensures RowAt(s, i) == if i == r then d else RowAt(m, i) {
    }
  }

  /** Writing one cell changes one column of one row. */
  lemma SpliceCell(m: seq<byte>, y: int, x: int, cell: seq<byte>)
    requires |m| == VGA_SIZE && 0 <= y < TEXT_ROWS && 0 <= x < COLS && |cell| == 2
    ensures TextRows(Splice(m, 2 * (y * COLS + x), cell)) == TextRows(m)[y := SetCell(RowAt(m, y), x, cell)]
    ensures RowAt(Splice(m, 2 * (y * COLS + x), cell), STATUS) == RowAt(m, STATUS)
  {
    hide Splice;
    var s := Splice(m, 2 * (y * COLS + x), cell);
    forall i | 0 <= i < TEXT_ROWS ensures RowAt(s, i) == if i == y then SetCell(RowAt(m, y), x, cell) else RowAt(m, i) {
    }
  }

  /** Splicing twice at the same place, or one piece after another. */
  lemma SpliceAppend(m: seq<byte>, off: int, d: seq<byte>, e: seq<byte>)
    requires 0 <= off && off + |d| + |e| <= |m|
    ensures Splice(Splice(m, off, d), off + |d|, e) == Splice(m, off, d + e)
  {
  }

  /** VGA_ENTRY: the character, the foreground shifted left by 8 and the background shifted left by 12, in 16 bits. */
  function VgaEntry(ch: byte, fg: byte, bg: byte): (e: int)
    requires fg < 16 && bg < 16
    ensures 0 <= e < 0x1_0000
  {
    ch as int + fg as int * 0x100 + bg as int * 0x1000
  }

  /** A 16-bit value as it lies in memory. */
  function TwoBytes(e: int): (b: seq<byte>)
    requires 0 <= e < 0x1_0000
    ensures |b| == 2 && b[0] as int + 0x100 * (b[1] as int) == e
  {
    [e % 0x100, e / 0x100]
  }

  lemma EntryIsCell(ch: byte, fg: byte, bg: byte)
    requires fg < 16 && bg < 16
    ensures TwoBytes(VgaEntry(ch, fg, bg)) == Cell(ch, fg, bg)
  {
  }

  // ----- The console

  datatype VtContext = VtContext(cx: int, cy: int, fg: byte, bg: byte, buffer: seq<byte>)

  predicate ValidContext(c: VtContext) {
    0 <= c.cx < COLS && 0 <= c.cy < TEXT_ROWS && c.fg < 16 && c.bg < 16 && |c.buffer| == VGA_SIZE
  }

  function TermOf(m: seq<byte>, c: VtContext): (t: Term)
    requires |m| == VGA_SIZE
  {
    Term(TextRows(m), c.cx, c.cy, c.fg, c.bg)
  }

  /** Grey spaces on black, in the status row as well. */
  function CleanScreen(): (m: seq<byte>)
    ensures |m| == VGA_SIZE
  {
    seq(VGA_SIZE, k => if k % 2 == 0 then 32 else 7)
  }

  lemma CleanRows()
    ensures TextRows(CleanScreen()) == SpaceRows(7, 0)
  {
    forall r | 0 <= r < TEXT_ROWS ensures RowAt(CleanScreen(), r) == SpaceRow(7, 0) {
    }
  }

  class Vtcon {
    const fb: array<byte>
    var contexts: seq<VtContext>
    var current: int

    ghost predicate Shape()
      reads this
    {
      fb.Length == VGA_SIZE && |contexts| == TERMINALS && 0 <= current < TERMINALS &&
      forall i :: 0 <= i < TERMINALS ==> |contexts[i].buffer| == VGA_SIZE
    }

    ghost predicate Valid()
      reads this
    {
      Shape() && forall i :: 0 <= i < TERMINALS ==> ValidContext(contexts[i])
    }

    /** The terminal on the screen. */
    ghost function Shown(): Term
      reads this, fb
      requires Shape()
    {
      TermOf(fb[..], contexts[current])
    }

    /** All eight terminals: the current one is in the framebuffer, the others in their saved buffers. */
    ghost function View(): (s: Screens)
      reads this, fb
      requires Shape()
    {
      Screens(Terms(fb[..], contexts, current), current)
    }

    /** resetcontexts: eight cleared terminals, grey on black, over whatever the framebuffer shows. */
    constructor (fb: array<byte>)
      requires fb.Length == VGA_SIZE
      ensures this.fb == fb && Valid() && current == 0
      ensures View().terms[0] == Term(TextRows(fb[..]), 0, 0, 7, 0)
      ensures forall i :: 1 <= i < TERMINALS ==> View().terms[i] == Term(SpaceRows(7, 0), 0, 0, 7, 0)
    {
      hide TextRows, SpaceRow, CleanScreen;
      CleanRows();
      this.fb := fb;
      contexts := seq(TERMINALS, i => VtContext(0, 0, 7, 0, CleanScreen()));
      current := 0;
    }

    /** The status bar: its text is of no concern here. */
    method DrawStatus()
      requires Shape()
      modifies fb
      ensures TextRows(fb[..]) == old(TextRows(fb[..]))
    {
      var any: seq<byte> := *;
      var status := if |any| == ROW_BYTES then any else BlankRow(0);
      SpliceRow(fb[..], VGA_ROWS - 1, status);
      var n := VgafbWrite(fb, status, ROW_BYTES * (VGA_ROWS - 1), ROW_BYTES);
      assert status[..n] == status;
    }

    method CopyRow(dst: int, src: int)
      requires Shape() && 0 <= dst < TEXT_ROWS && 0 <= src < TEXT_ROWS
      modifies fb
      ensures TextRows(fb[..]) == old(TextRows(fb[..]))[dst := old(TextRows(fb[..]))[src]]
      ensures RowAt(fb[..], STATUS) == old(RowAt(fb[..], STATUS))
    {
      ghost var m := fb[..];
      var buf := VgafbRead(fb, COLS * src * 2, COLS * 2);
      assert buf == RowAt(m, src);
      SpliceRow(m, dst, buf);
      var n := VgafbWrite(fb, buf, COLS * dst * 2, |buf|);
      assert buf[..n] == buf;
    }

    /** Writes the same cell eighty times along a row. */
    method FillRow(row: int, entry: int)
      requires Shape() && 0 <= row < VGA_ROWS && 0 <= entry < 0x1_0000
      modifies fb
      ensures var stripes := Striped(TwoBytes(entry)[0], TwoBytes(entry)[1]);
        TextRows(fb[..]) == if row < TEXT_ROWS then old(TextRows(fb[..]))[row := stripes] else old(TextRows(fb[..]))
      ensures row < TEXT_ROWS ==> RowAt(fb[..], STATUS) == old(RowAt(fb[..], STATUS))
    {
      hide Splice, Striped, TextRows, Clip;
      ghost var m := fb[..];
      var ch, attr := TwoBytes(entry)[0], TwoBytes(entry)[1];
      ghost var stripes := Striped(ch, attr);
      SpliceNothing(m, ROW_BYTES * row);
      var i := 0;
      while i < COLS
        invariant 0 <= i <= COLS && fb[..] == Splice(m, ROW_BYTES * row, stripes[..2 * i])
      {
        var n := VgafbWrite(fb, [ch, attr], COLS * row * 2 + 2 * i, 2);
        assert [ch, attr][..n] == [ch, attr];
        SpliceAppend(m, ROW_BYTES * row, stripes[..2 * i], [ch, attr]);
        StripedStep(ch, attr, i);
        i := i + 1;
      }
      assert stripes[..2 * COLS] == stripes;
      SpliceRow(m, row, stripes);
    }

    method ClearRow(row: int)
      requires Valid() && 0 <= row < TEXT_ROWS
      modifies fb
      ensures TextRows(fb[..]) == old(TextRows(fb[..]))[row := BlankRow(contexts[current].fg)]
      ensures RowAt(fb[..], STATUS) == old(RowAt(fb[..], STATUS))
    {
      FillRow(row, contexts[current].fg as int * 0x100);
    }

    /** Every text row moves up by one, in place and in ascending order, and the last one is cleared. */
    method Scroll()
      requires Valid()
      modifies fb
      ensures TextRows(fb[..]) == old(TextRows(fb[..]))[1..] + [BlankRow(contexts[current].fg)]
      ensures RowAt(fb[..], STATUS) == old(RowAt(fb[..], STATUS))
    {
      hide TextRows, BlankRow, RowAt;
      ghost var before := TextRows(fb[..]);
      var row := 1;
      while row < VGA_ROWS - 1
        invariant 1 <= row <= TEXT_ROWS && contexts == old(contexts)
        invariant TextRows(fb[..]) == before[1..row] + before[row - 1..]
        invariant RowAt(fb[..], STATUS) == old(RowAt(fb[..], STATUS))
      {
        ShiftStep(before, row);
        CopyRow(row - 1, row);
        row := row + 1;
      }
      ClearRow(VGA_ROWS - 2);
      ShiftEnd(before, BlankRow(contexts[current].fg));
    }

    /** moveline: the cursor goes one row down; past the last text row everything scrolls instead. */
    method MoveLine()
      requires Valid()
      modifies this`contexts, fb
      ensures Valid() && OthersKept(old(contexts), contexts, current)
      ensures Shown() == Down(old(Shown())) && RowAt(fb[..], STATUS) == old(RowAt(fb[..], STATUS))
    {
      hide TextRows, BlankRow, RowAt;
      var cy := contexts[current].cy + 1;
      if cy == VGA_ROWS - 1 {
        Scroll();
        cy := VGA_ROWS - 2;
      }
      contexts := contexts[current := contexts[current].(cy := cy)];
    }

    method SetColumn(cx: int)
      requires Valid() && 0 <= cx < COLS
      modifies this`contexts
      ensures Valid() && OthersKept(old(contexts), contexts, current)
      ensures Shown() == old(Shown()).(cx := cx)
    {
      contexts := contexts[current := contexts[current].(cx := cx)];
    }

    /** To column 0 of the next row. */
    method NewLine()
      requires Valid()
      modifies this`contexts, fb
      ensures Valid() && OthersKept(old(contexts), contexts, current)
      ensures Shown() == Down(old(Shown()).(cx := 0))
    {
      hide TextRows, Down, OthersKept;
      ghost var c0 := contexts;
      SetColumn(0);
      ghost var c1 := contexts;
      MoveLine();
      OthersTrans(c0, c1, contexts, current);
    }

    /** Stores the character and its colours at the cursor. */
    method StoreCell(ch: byte)
      requires Valid()
      modifies fb
      ensures ValidTerm(old(Shown())) && Shown() == Typed(old(Shown()), ch)
      ensures RowAt(fb[..], STATUS) == old(RowAt(fb[..], STATUS))
    {
      hide SetCell, Cell, TextRows, Splice;
      ShownValid(fb[..], contexts[current]);
      var ctx := contexts[current];
      EntryIsCell(ch, ctx.fg, ctx.bg);
      var cell := TwoBytes(VgaEntry(ch, ctx.fg, ctx.bg));
      SpliceCell(fb[..], ctx.cy, ctx.cx, cell);
      var n := VgafbWrite(fb, cell, 2 * (ctx.cy * COLS + ctx.cx), 2);
      assert cell[..n] == cell;
    }

    /** putchar */
    method PutChar(ch: byte)
      requires Valid()
      modifies this`contexts, fb
      ensures Valid() && OthersKept(old(contexts), contexts, current)
      ensures Shown() == Put(old(Shown()), ch)
    {
      hide TextRows, Down, Typed, OthersKept;
      OthersSame(contexts, current);
      ShownValid(fb[..], contexts[current]);
      var cx := contexts[current].cx;
      if ch == 8 {
        if cx > 0 {
          SetColumn(cx - 1);
        }
      } else if ch == 9 {
        var x := NextTab(cx);
        if x >= COLS {
          NewLine();
        } else {
          SetColumn(x);
        }
      } else if ch == 10 {
        DownKeepsColumn(Shown());
        NewLine();
      } else if ch == 13 {
        SetColumn(0);
      } else {
        StoreCell(ch);
        if cx + 1 == COLS {
          NewLine();
        } else {
          SetColumn(cx + 1);
        }
      }
      DrawStatus();
    }

    /** clearscreen */
    method ClearScreen()
      requires Valid()
      modifies this`contexts, fb
      ensures Valid() && OthersKept(old(contexts), contexts, current)
      ensures Shown() == Clear(old(Shown()))
      ensures contexts[current].cx == 0 && contexts[current].cy == 0
      ensures contexts[current].fg == old(contexts[current].fg) && contexts[current].bg == old(contexts[current].bg)
      ensures forall y :: 0 <= y < 24 ==> IsClear(RowAt(fb[..], y), contexts[current].fg, contexts[current].bg)
    {
      hide TextRows, Striped, SpaceRow, TwoBytes, VgaEntry;
      var fg, bg := contexts[current].fg, contexts[current].bg;
      var y := 0;
      while y < VGA_ROWS
        invariant 0 <= y <= VGA_ROWS && contexts == old(contexts) && Cleared(TextRows(fb[..]), y, fg, bg)
      {
        SpaceEntry(fg, bg);
        ghost var rows := TextRows(fb[..]);
        FillRow(y, VgaEntry(32, fg, bg));
        ClearedMore(rows, TextRows(fb[..]), y, fg, bg);
        y := y + 1;
      }
      ClearedAll(TextRows(fb[..]), fg, bg);
      SpaceRowIsClear(fg, bg);
      contexts := contexts[current := contexts[current].(cx := 0, cy := 0)];
      DrawStatus();
    }

    /** switchcontext: save the screen, change the context, restore its screen. */
    method SwitchContext(to: int)
      requires Valid()
      modifies this, fb
      ensures Valid()
      ensures View() == old(View()).(current := if 0 <= to < TERMINALS then to else old(current))
    {
      hide TextRows, Terms, Splice;
      if 0 <= to < TERMINALS {
        ghost var m, c, was := fb[..], contexts, current;
        var saved := VgafbRead(fb, 0, VGA_SIZE);
        assert saved == m;
        contexts := contexts[current := contexts[current].(buffer := saved)];
        current := to;
        var shown := contexts[current].buffer;
        var n := VgafbWrite(fb, shown, 0, VGA_SIZE);
        assert shown[..n] == shown && fb[..] == shown;
        DrawStatus();
        SwitchTerms(m, c, was, fb[..], to);
      }
    }

    /** One event from the keyboard or the system. */
    method Handle(e: Event)
      requires Valid()
      modifies this, fb
      ensures Valid() && ValidScreens(old(View())) && View() == Step(old(View()), e)
    {
      hide TextRows, Put, Clear, Terms;
      ghost var m, c := fb[..], contexts;
      ViewValid(m, c, current);
      match e
      case Type(ch) =>
        PutChar(ch);
        ViewStep(m, c, fb[..], contexts, current, Shown());
      case Wipe =>
        ClearScreen();
        ViewStep(m, c, fb[..], contexts, current, Shown());
      case Switch(to) =>
        SwitchContext(to);
    }

    /** Any sequence of typing, clearing and switching. */
    method Perform(es: seq<Event>)
      requires Valid()
      modifies this, fb
      ensures Valid() && ValidScreens(old(View())) && View() == RunAll(old(View()), es)
    {
      hide TextRows, Step, Terms;
      ViewValid(fb[..], contexts, current);
      ghost var start := View();
      var i := 0;
      while i < |es|
        invariant 0 <= i <= |es| && Valid() && View() == RunAll(start, es[..i])
      {
        assert es[..i + 1][..i] == es[..i];
        Handle(es[i]);
        i := i + 1;
      }
      assert es[..i] == es;
    }

    /** vtcon_write */
    method Write(buf: seq<byte>) returns (written: int)
      requires Valid()
      modifies this`contexts, fb
      ensures Valid() && OthersKept(old(contexts), contexts, current) && written == |buf|
      ensures ValidTerm(old(Shown())) && Shown() == PutAll(old(Shown()), buf)
    {
      hide TextRows, Put, OthersKept;
      ShownValid(fb[..], contexts[current]);
      OthersSame(contexts, current);
      ghost var start := Shown();
      var i := 0;
      while i < |buf|
        invariant 0 <= i <= |buf| && Valid() && OthersKept(old(contexts), contexts, current) &&
          Shown() == PutAll(start, buf[..i])
      {
        assert buf[..i + 1][..i] == buf[..i];
        ghost var c := contexts;
        PutChar(buf[i]);
        OthersTrans(old(contexts), c, contexts, current);
        i := i + 1;
      }
      assert buf[..i] == buf;
      return |buf|;
    }
  }

  lemma SpaceRowIsClear(fg: byte, bg: byte)
    requires fg < 16 && bg < 16
    ensures IsClear(SpaceRow(fg, bg), fg, bg)
  {
  }

  /** The first n text rows are cleared. */
  ghost predicate Cleared(rows: seq<Row>, n: int, fg: byte, bg: byte)
    requires fg < 16 && bg < 16
  {
    |rows| == TEXT_ROWS && forall r :: 0 <= r < n && r < TEXT_ROWS ==> rows[r] == SpaceRow(fg, bg)
  }

  lemma ClearedMore(rows: seq<Row>, more: seq<Row>, y: int, fg: byte, bg: byte)
    requires fg < 16 && bg < 16 && 0 <= y && Cleared(rows, y, fg, bg)
    requires more == if y < TEXT_ROWS then rows[y := SpaceRow(fg, bg)] else rows
    ensures Cleared(more, y + 1, fg, bg)
  {
  }

  lemma ClearedAll(rows: seq<Row>, fg: byte, bg: byte)
    requires fg < 16 && bg < 16 && Cleared(rows, VGA_ROWS, fg, bg)
    ensures rows == SpaceRows(fg, bg)
  {
  }

  /** The entry of a space fills a row with spaces. */
  lemma SpaceEntry(fg: byte, bg: byte)
    requires fg < 16 && bg < 16
    ensures TwoBytes(VgaEntry(32, fg, bg)) == Cell(32, fg, bg)
    ensures SpaceRow(fg, bg) == Striped(TwoBytes(VgaEntry(32, fg, bg))[0], TwoBytes(VgaEntry(32, fg, bg))[1])
  {
    EntryIsCell(32, fg, bg);
  }

  /** Looking at all eight terminals, a change on screen is a change of the current one. */
  lemma ViewStep(m: seq<byte>, c: seq<VtContext>, r: seq<byte>, d: seq<VtContext>, current: int, t: Term)
    requires |m| == |r| == VGA_SIZE && |c| == TERMINALS && 0 <= current < TERMINALS && OthersKept(c, d, current)
    requires forall i :: 0 <= i < TERMINALS ==> |c[i].buffer| == VGA_SIZE
    requires t == TermOf(r, d[current])
    ensures forall i :: 0 <= i < TERMINALS ==> |d[i].buffer| == VGA_SIZE
    ensures Terms(r, d, current) == Terms(m, c, current)[current := t]
  {
    hide TextRows;
  }

  /** The terminals behind the framebuffer m and the contexts c. */
  ghost function Terms(m: seq<byte>, c: seq<VtContext>, current: int): (ts: seq<Term>)
    requires |m| == VGA_SIZE && |c| == TERMINALS && forall i :: 0 <= i < TERMINALS ==> |c[i].buffer| == VGA_SIZE
    ensures |ts| == TERMINALS
    ensures forall i :: 0 <= i < TERMINALS ==> ts[i] == TermOf(if i == current then m else c[i].buffer, c[i])
  {
    seq(TERMINALS, i requires 0 <= i < TERMINALS => TermOf(if i == current then m else c[i].buffer, c[i]))
  }

  /** Saving the screen and showing another saved one leaves all eight terminals as they were. */
  lemma SwitchTerms(m: seq<byte>, c: seq<VtContext>, current: int, r: seq<byte>, to: int)
    requires |m| == |r| == VGA_SIZE && |c| == TERMINALS && 0 <= current < TERMINALS && 0 <= to < TERMINALS
    requires forall i :: 0 <= i < TERMINALS ==> |c[i].buffer| == VGA_SIZE
    requires TextRows(r) == TextRows(c[current := c[current].(buffer := m)][to].buffer)
    ensures Terms(r, c[current := c[current].(buffer := m)], to) == Terms(m, c, current)
  {
    hide TextRows;
  }

  lemma StripedStep(ch: byte, attr: byte, i: int)
    requires 0 <= i < COLS
    ensures Striped(ch, attr)[..2 * i] + [ch, attr] == Striped(ch, attr)[..2 * (i + 1)]
  {
  }

  lemma SpliceNothing(m: seq<byte>, off: int)
    requires 0 <= off <= |m|
    ensures Splice(m, off, []) == m
  {
  }

  /** Rows above row have moved up; copying one more row keeps it so. */
  lemma ShiftStep(before: seq<Row>, row: int)
    requires |before| == TEXT_ROWS && 1 <= row < TEXT_ROWS
    ensures var rows := before[1..row] + before[row - 1..];
      |rows| == TEXT_ROWS && rows[row - 1 := rows[row]] == before[1..row + 1] + before[row..]
  {
  }

  lemma ShiftEnd(before: seq<Row>, blank: Row)
    requires |before| == TEXT_ROWS
    ensures (before[1..TEXT_ROWS] + before[TEXT_ROWS - 1..])[TEXT_ROWS - 1 := blank] == before[1..] + [blank]
  {
  }

  lemma ViewValid(m: seq<byte>, c: seq<VtContext>, current: int)
    requires |m| == VGA_SIZE && |c| == TERMINALS && 0 <= current < TERMINALS
    requires forall i :: 0 <= i < TERMINALS ==> ValidContext(c[i]) && |c[i].buffer| == VGA_SIZE
    ensures ValidScreens(Screens(Terms(m, c, current), current))
  {
    hide TextRows;
  }

  lemma ShownValid(m: seq<byte>, c: VtContext)
    requires |m| == VGA_SIZE && ValidContext(c)
    ensures ValidTerm(TermOf(m, c))
  {
  }

  /** Only the current context's record changed, and not its saved buffer. */
  ghost predicate OthersKept(c: seq<VtContext>, d: seq<VtContext>, current: int) {
    |c| == |d| && (forall i :: 0 <= i < |c| && i != current ==> d[i] == c[i]) &&
    (0 <= current < |c| ==> d[current].buffer == c[current].buffer)
  }

  lemma OthersSame(c: seq<VtContext>, current: int)
    ensures OthersKept(c, c, current)
  {
  }

  lemma OthersTrans(c: seq<VtContext>, d: seq<VtContext>, e: seq<VtContext>, current: int)
    requires OthersKept(c, d, current) && OthersKept(d, e, current)
    ensures OthersKept(c, e, current)
  {
  }

  /** The loop that looks for the next tab stop. */
  method NextTab(cx: int) returns (x: int)
    requires 0 <= cx
    ensures x == TabStop(cx) && cx < x <= cx + 7 && x % 7 == 0
  {
    x := cx + 1;
    while x % 7 != 0
      invariant cx < x <= TabStop(cx)
      decreases TabStop(cx) - x
    {
      x := x + 1;
    }
  }
}
