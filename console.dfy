/**
 * The `TuringConsole`: the tape strip with its cursor cell, the two scroller
 * blocks and the program listing with its current line, drawn on a terminal
 * through cursor moves, SGR colour selections and character writes.
 */
module Console {
  import opened Widths
  import opened Colors
  import opened Sgr
  import opened Screens
  import opened CodeFiles
  import opened Rendering

  /** `tape_display_width = width - 10`, stored in an `unsigned short`: it wraps to a value near
      65536 on a console narrower than 10 columns. */
  function DisplayWidth(width: I16): (r: U16)
    ensures 10 <= width ==> r == width - 10
    ensures width < 10 ==> r == width - 10 + SHORT_RANGE && r >= 0x8000 - 10
  {
    UShort(width - 10)
  }

  class TuringConsole {
    var turingPosition: U32
    /** The highlighted program line; lines are numbered from 1, and 0 is none. */
    var currentCodeLine: U32
    const codeFile: CodeFile
    const width: I16
    const height: I16
    const tapeDisplayStart: Coord
    const tapeDisplayWidth: U16
    const term: Terminal

    /** Between calls the rendition is reset, both positions fit the `unsigned short` they were
        set from, and on a console at least 10 columns wide the only tape cell in the cursor
        rendition is that of the tape cursor. */
    ghost predicate Valid()
      reads this, term
    {
      && turingPosition < SHORT_RANGE
      && currentCodeLine < SHORT_RANGE
      && tapeDisplayStart == TAPE_DISPLAY_START
      && tapeDisplayWidth == DisplayWidth(width)
      && term.attr == PlainAttr
      && (10 <= width ==> HighlightOnlyAt(term.cells, TapeCell(turingPosition)))
    }

    function GetWidth(): I16
      reads this
    {
      width
    }

    function GetHeight(): I16
      reads this
    {
      height
    }

    /** The console of a `width` x `height` terminal: the screen is cleared and both scrollers are
        drawn disabled, the default arguments of `draw_tape_scrollers`. */
    constructor (file: CodeFile, w: I16, h: I16, t: Terminal)
      modifies t
      ensures Valid()
      ensures codeFile == file && term == t
      ensures GetWidth() == w && GetHeight() == h
      ensures turingPosition == 0 && currentCodeLine == 0
      ensures tapeDisplayStart == TAPE_DISPLAY_START && tapeDisplayWidth == DisplayWidth(w)
      ensures forall c :: c in t.cells <==> ScrollerCell(c, w, true, true).Some?
      ensures forall c :: c in t.cells ==> t.cells[c] == ScrollerCell(c, w, true, true).value
      ensures t.cursor == PARK
    {
      codeFile, width, height, term := file, w, h, t;
      tapeDisplayStart := TAPE_DISPLAY_START;
      turingPosition, currentCodeLine := 0, 0;
      tapeDisplayWidth := DisplayWidth(w);
      new;
      Clear();
      DrawTapeScrollers(true, true);
      ScrollersAt(map[], w, true, true);
    }

    /** `set_color(col)` sends `ESC [ code m`, which selects `col`. */
    method SetColor(col: Color)
      modifies term
      ensures term.View() == old(term.View()).Recolor(col)
    {
      term.Control(Sgr.Sequence(Code(col)));
      ControlSelects(old(term.View()), col);
    }

    /** `clear()`: the screen is emptied and the cursor goes home. */
    method Clear()
      modifies term
      ensures term.View() == old(term.View()).Erase()
      ensures old(Valid()) ==> Valid()
    {
      term.Erase();
    }

    /** Moves the cursor highlight from the previous tape position to `position`: the previous
        cell is rewritten plain, the new one in the cursor rendition. Either position may be the
        tape's length, where the string holds its terminating NUL. */
    method SetTapeCursor(position: U16, tape: string)
      requires Valid()
      requires turingPosition <= |tape| && position <= |tape|
      modifies this, term
      ensures Valid()
      ensures term.cells == old(term.cells)[TapeCell(old(turingPosition)) := Cell(TapeChar(tape, old(turingPosition)), PlainAttr)]
                                           [TapeCell(position) := Cell(TapeChar(tape, position), CursorAttr)]
      ensures old(turingPosition) != position ==>
        term.cells[TapeCell(old(turingPosition))] == Cell(TapeChar(tape, old(turingPosition)), PlainAttr)
      ensures term.cursor == Coord(TapeCell(position).x + 1, TAPE_DISPLAY_START.y)
      ensures turingPosition == position && currentCodeLine == old(currentCodeLine)
    {
      var previous := turingPosition;
      term.SetPosition(TapeCell(previous));
      SetColor(Reset);
      term.Write([TapeChar(tape, previous)]);
      PrintOne(old(term.View()).MoveTo(TapeCell(previous)).Recolor(Reset), TapeChar(tape, previous));
      ghost var mid := term.View();
      term.SetPosition(TapeCell(position));
      SetColor(CyanBg);
      term.Write([TapeChar(tape, position)]);
      PrintOne(mid.MoveTo(TapeCell(position)).Recolor(CyanBg), TapeChar(tape, position));
      SetColor(Reset);
      RenditionsFromReset(PlainAttr);
      turingPosition := position;
      TapeCellsDistinct(previous, position);
    }

    /** `write_at(symbol, q)` rewrites tape cell q, in the cursor rendition exactly when q is the
        tape cursor; nothing else changes. */
    method WriteAt(symbol: char, q: U16)
      requires Valid()
      modifies term
      ensures Valid()
      ensures term.cells == old(term.cells)[TapeCell(q) := Cell(symbol, if q == turingPosition then CursorAttr else PlainAttr)]
      ensures term.cursor == Coord(TapeCell(q).x + 1, TAPE_DISPLAY_START.y)
    {
      term.SetPosition(TapeCell(q));
      if turingPosition == q {
        SetColor(CyanBg);
      }
      ghost var before := term.View();
      term.Write([symbol]);
      PrintOne(before, symbol);
      SetColor(Reset);
      RenditionsFromReset(PlainAttr);
    }

    /** Draws both scroller blocks, each over a black foreground on a bright black background
        when disabled and a white one otherwise; the cursor is parked afterwards. */
    method DrawTapeScrollers(leftDisabled: bool, rightDisabled: bool)
      modifies term
      ensures term.cells == Scrollers(old(term.cells), width, leftDisabled, rightDisabled)
      ensures term.attr == PlainAttr && term.cursor == PARK
      ensures old(Valid()) ==> Valid()
    {
      ghost var start := term.cells;
      SetColor(BlackFg);
      SetColor(if leftDisabled then LightBlackBg else WhiteBg);
      RenditionsFromReset(old(term.attr));
      DrawBlock(1, '<');
      SetColor(if rightDisabled then LightBlackBg else WhiteBg);
      RenditionsFromReset(ScrollerAttr(leftDisabled));
      DrawBlock(RightBlockX(width), '>');
      SetColor(Reset);
      term.SetPosition(PARK);
      ScrollersPlain(start, width, leftDisabled, rightDisabled);
      if old(Valid()) && 10 <= width {
        KeepsHighlight(start, term.cells, TapeCell(turingPosition));
      }
    }

    /** The three writes of one scroller block at column x. */
    method DrawBlock(x: I16, arrow: char)
      modifies term
      ensures term.cells == Block(old(term.cells), x, arrow, old(term.attr))
      ensures term.attr == old(term.attr) && term.cursor == Coord(x + 3, 3)
    {
      term.SetPosition(Coord(x, 1));
      term.Write("   ");
      term.SetPosition(Coord(x, 2));
      term.Write([' ', arrow, ' ']);
      term.SetPosition(Coord(x, 3));
      term.Write("   ");
    }

    /** Repaints the whole tape from the display start when it fits the display width, the tape
        cursor's symbol in the cursor rendition; a longer tape is not drawn. */
    method SetTapeValue(tape: string)
      requires Valid()
      modifies term
      ensures Valid()
      ensures |tape| <= tapeDisplayWidth ==>
        term.cells == Place(old(term.cells), TAPE_DISPLAY_START, TapeRow(tape, turingPosition))
      ensures |tape| > tapeDisplayWidth ==> term.cells == old(term.cells)
      ensures term.cursor == PARK
    {
      term.SetPosition(tapeDisplayStart);
      if |tape| <= tapeDisplayWidth {
        var row := TapeRow(tape, turingPosition);
        var i := 0;
        while i < |tape|
          invariant 0 <= i <= |tape|
          invariant term.cells == Place(old(term.cells), TAPE_DISPLAY_START, row[..i])
          invariant term.cursor == Coord(TAPE_DISPLAY_START.x + i, TAPE_DISPLAY_START.y)
          invariant term.attr == PlainAttr
        {
          ghost var cells := term.cells;
          if i == turingPosition {
            SetColor(CyanBg);
            RenditionsFromReset(PlainAttr);
            ghost var before := term.View();
            term.Write([tape[i]]);
            PrintOne(before, tape[i]);
            SetColor(Reset);
          } else {
            ghost var before := term.View();
            term.Write([tape[i]]);
            PrintOne(before, tape[i]);
          }
          assert term.cells == cells[Coord(TAPE_DISPLAY_START.x + i, TAPE_DISPLAY_START.y) := row[i]];
          PlaceSnoc(old(term.cells), TAPE_DISPLAY_START, row[..i], row[i]);
          assert row[..i + 1] == row[..i] + [row[i]];
          i := i + 1;
        }
        assert row[..|tape|] == row;
        RepaintKeepsHighlight(old(term.cells), tape, width, turingPosition);
      }
      term.SetPosition(PARK);
    }

    /** Re-highlights the program listing: scans the lines of `file` from its start, rewriting
        the previous current line plain and the target `line` in the current-line rendition,
        until both are done or the file is exhausted; `line` becomes current only if it was met. */
    method SetCurrentCodeLine(line: U16, file: CodeFile)
      requires Valid() && file.Valid()
      modifies this, term, file
      ensures Valid() && file.Valid()
      ensures turingPosition == old(turingPosition)
      ensures currentCodeLine == if file.isOpen && Reached(line, |Records(file.content)|) then line else old(currentCodeLine)
      ensures file.isOpen ==>
        term.View() == Scan(Records(file.content), old(currentCodeLine), line, old(term.View())).screen
      ensures !file.isOpen ==> term.View() == old(term.View())
      ensures file.isOpen ==> file.pos == 0 && file.Good()
      ensures !file.isOpen ==> file.pos == 0 && !file.eof && file.fail
    {
      file.Clear();
      file.SeekStart();
      if file.isOpen {
        ghost var start := term.View();
        var colored := ScanLines(currentCodeLine, line, file);
        ghost var records := Records(file.content);
        ScanColored(records, old(currentCodeLine), line, start);
        ScanPlain(records, old(currentCodeLine), line, start);
        if 10 <= width {
          KeepsHighlight(start.cells, term.cells, TapeCell(turingPosition));
        }
        if colored {
          currentCodeLine := line;
        }
      }
      file.Clear();
      file.SeekStart();
    }

    /** The loop of `set_current_code_line`: reads the lines of a rewound stream, counting them in
        an `unsigned short`, until the stream stops being good or both the previous current line
        and the target line have been rewritten. */
    method ScanLines(current: U32, line: U16, file: CodeFile) returns (colored: bool)
      requires file.Valid() && file.isOpen && file.Good() && file.pos == 0
      requires term.attr == PlainAttr
      modifies term, file
      ensures file.Valid()
      ensures var scan := Scan(Records(file.content), current, line, old(term.View()));
        term.View() == scan.screen && colored == scan.colored
    {
      var lineCount: U16 := 0;
      var resetted := false;
      colored := false;
      ghost var records := Records(file.content);
      ghost var k := 0;
      ghost var start := term.View();
      while file.Good() && !(resetted && colored)
        invariant file.Valid() && file.isOpen
        invariant 0 <= k <= |records|
        invariant file.Good() ==> k < |records| && Records(file.Rest()) == records[k..]
        invariant !file.Good() ==> k == |records|
        invariant lineCount == UShort(k)
        invariant term.attr == PlainAttr
        invariant ScanFrom(records, k, current, line, resetted, colored, term.View()) == Scan(records, current, line, start)
        decreases |records| - k
      {
        ghost var before := term.View();
        ScanFromNext(records, k, current, line, resetted, colored, before);
        ScanStepPlain(records, k, current, line, before);
        lineCount, resetted, colored := ScanNext(file, lineCount, current, line, resetted, colored, records, k);
        k := k + 1;
      }
    }

    /** One pass of the scan loop: record k is read, counted and rewritten. */
    method ScanNext(file: CodeFile, lineCount: U16, current: U32, line: U16, resetted: bool, colored: bool,
                    ghost records: seq<string>, ghost k: nat)
        returns (count: U16, nowResetted: bool, nowColored: bool)
      requires file.Valid() && file.isOpen && file.Good()
      requires k < |records| && Records(file.Rest()) == records[k..]
      requires lineCount == UShort(k)
      modifies term, file
      ensures file.Valid() && file.isOpen
      ensures file.Good() ==> k + 1 < |records| && Records(file.Rest()) == records[k + 1..]
      ensures !file.Good() ==> k + 1 == |records|
      ensures count == UShort(k + 1)
      ensures term.View() == ScanStep(records, k, current, line, old(term.View()))
      ensures nowResetted == (resetted || LineNumber(k) == current) && nowColored == (colored || LineNumber(k) == line)
    {
      var s := file.GetLine();
      UShortSucc(k);
      count := UShort(lineCount + 1);
      nowResetted, nowColored := RewriteLine(count, current, line, s, resetted, colored, records, k);
    }

    /** The writes of one scan pass over record k, numbered n: it is rewritten plain when it is
        the current line, then in the current-line rendition when it is the target. */
    method RewriteLine(n: U16, current: U32, line: U16, s: string, resetted: bool, colored: bool,
                       ghost records: seq<string>, ghost k: nat)
        returns (nowResetted: bool, nowColored: bool)
      requires k < |records| && s == records[k] && n == LineNumber(k)
      modifies term
      ensures term.View() == ScanStep(records, k, current, line, old(term.View()))
      ensures nowResetted == (resetted || n == current) && nowColored == (colored || n == line)
    {
      nowResetted, nowColored := resetted, colored;
      if n == current {
        term.SetPosition(Coord(0, Short(n + 5)));
        SetColor(Reset);
        term.Write(s);
        nowResetted := true;
      }
      if n == line {
        term.SetPosition(Coord(0, Short(n + 5)));
        SetColor(GreenBg);
        term.Write(s);
        SetColor(Reset);
        nowColored := true;
      }
    }

    /** Prints the program from (0,5), character by character from where the stream stands:
        each ';' selects the comment rendition and each '\n' resets it before it is written.
        The stream is tested before each read, so the EOF value of the read that fails is
        printed too. Reports whether the file was open; only then is the stream rewound. */
    method PrintTuringCode(file: CodeFile) returns (ok: bool)
      requires Valid() && file.Valid()
      modifies term, file
      ensures Valid() && file.Valid()
      ensures ok == file.isOpen
      ensures !file.isOpen ==> term.View() == old(term.View()).MoveTo(CODE_START)
      ensures !file.isOpen ==> file.pos == old(file.pos) && file.eof == old(file.eof) && file.fail == old(file.fail)
      ensures file.isOpen ==>
        term.View() == Listing(old(term.View()).MoveTo(CODE_START), old(file.Pending())).Recolor(Reset)
      ensures file.isOpen ==>
        && term.cells == Place(old(term.cells), CODE_START, Commented(old(file.Pending())))
        && term.cursor == Coord(CODE_START.x + |old(file.Pending())|, CODE_START.y)
      ensures file.isOpen ==> file.pos == 0 && file.Good()
    {
      term.SetPosition(CODE_START);
      if !file.isOpen {
        return false;
      }
      ghost var start := term.View();
      ghost var todo := file.Pending();
      ListCode(file);
      ghost var listed := term.View();
      file.Clear();
      file.SeekStart();
      SetColor(Reset);
      assert term.cells == listed.cells;
      ListingWrites(start, todo);
      ListingPlain(start, todo);
      if 10 <= width {
        KeepsHighlight(old(term.cells), term.cells, TapeCell(turingPosition));
      }
      return true;
    }

    /** The loop of `print_turing_code`: while the stream is good, a character is read, ';'
        selects the comment rendition and '\n' resets it, and the character is written. */
    method ListCode(file: CodeFile)
      requires file.Valid() && file.isOpen
      modifies term, file
      ensures file.Valid() && !file.Good()
      ensures term.View() == Listing(old(term.View()), old(file.Pending()))
    {
      ghost var start := term.View();
      ghost var todo := file.Pending();
      ghost var i := 0;
      while file.Good()
        invariant file.Valid() && file.isOpen
        invariant 0 <= i <= |todo| && file.Pending() == todo[i..]
        invariant term.View() == Listing(start, todo[..i])
        decreases |todo| - i
      {
        ListNext(file, todo, i);
        ListingSnoc(start, todo[..i], todo[i]);
        assert todo[..i + 1] == todo[..i] + [todo[i]];
        i := i + 1;
      }
      assert todo[..i] == todo;
    }

    /** One pass of the listing loop: the next pending character is read; ';' selects the
        comment rendition and '\n' resets it; the character is written. */
    method ListNext(file: CodeFile, ghost todo: string, ghost i: nat)
      requires file.Valid() && file.Good() && i <= |todo| && file.Pending() == todo[i..]
      modifies term, file
      ensures file.Valid() && i < |todo| && file.Pending() == todo[i + 1..]
      ensures term.View() == ListingStep(old(term.View()), todo[i])
    {
      var c := file.Get();
      assert c == todo[i] && file.Pending() == todo[i + 1..];
      if c == ';' {
        SetColor(LightBlackFg);
      } else if c == '\n' {
        SetColor(Reset);
      }
      term.Write([c]);
    }
  }

  /** A console built over a program file that failed to open: listing the program reports the
      failure, and the screen keeps exactly the two disabled scrollers. */
  method MissingProgram(w: I16, h: I16, c: Coord, a: Attr, cs: map<Coord, Cell>) returns (ok: bool, shown: map<Coord, Cell>)
    ensures !ok
    ensures forall p :: p in shown <==> ScrollerCell(p, w, true, true).Some?
    ensures forall p :: p in shown ==> shown[p] == ScrollerCell(p, w, true, true).value
  {
    var t := new Terminal(c, a, cs);
    var f := new CodeFile.Missing();
    var console := new TuringConsole(f, w, h, t);
    ok := console.PrintTuringCode(f);
    shown := t.cells;
  }

  /** A repaint that fits the display of a console at least 10 columns wide highlights only
      the tape cursor's cell. */
  lemma RepaintKeepsHighlight(cells: map<Coord, Cell>, tape: string, width: I16, cursor: nat)
    requires 10 <= width ==> HighlightOnlyAt(cells, TapeCell(cursor))
    requires |tape| <= DisplayWidth(width)
    ensures 10 <= width ==> HighlightOnlyAt(Place(cells, TAPE_DISPLAY_START, TapeRow(tape, cursor)), TapeCell(cursor))
  {
    if 10 <= width {
      var r := Place(cells, TAPE_DISPLAY_START, TapeRow(tape, cursor));
      PlaceAt(cells, TAPE_DISPLAY_START, TapeRow(tape, cursor));
      forall c | c in r && r[c].attr == CursorAttr
        ensures c == TapeCell(cursor)
      {
        if Covers(TAPE_DISPLAY_START, |tape|, c) {
          assert c.x - TAPE_DISPLAY_START.x == cursor;
        }
      }
    }
  }
}
