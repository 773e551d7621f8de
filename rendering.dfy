/**
 * What the console's drawing operations put on the screen, as functions of
 * their inputs: the tape row, the line scan that re-highlights the current
 * code line, the comment-coloured program listing and the two scroller
 * blocks; and the properties these drawings have.
 */
module Rendering {
  import opened Wrappers
  import opened Widths
  import opened Colors
  import opened Screens

  /** Renditions as the console produces them, always starting from a reset rendition. */
  const CursorAttr := Attr(Default, Tinted(false, CYAN))
  const CurrentLineAttr := Attr(Default, Tinted(false, GREEN))
  const CommentAttr := Attr(Tinted(true, BLACK), Default)

  function ScrollerAttr(disabled: bool): Attr
  {
    Attr(Tinted(false, BLACK), if disabled then Tinted(true, BLACK) else Tinted(false, WHITE))
  }

  lemma RenditionsFromReset(a: Attr)
    ensures Effect(PlainAttr, CyanBg) == CursorAttr
    ensures Effect(PlainAttr, GreenBg) == CurrentLineAttr
    ensures Effect(PlainAttr, LightBlackFg) == CommentAttr
    ensures Effect(Effect(a, BlackFg), LightBlackBg) == ScrollerAttr(true)
    ensures Effect(Effect(a, BlackFg), WhiteBg) == ScrollerAttr(false)
  {
  }

  // ---------------------------------------------------------------- tape

  const TAPE_DISPLAY_START := Coord(5, 2)
  /** Where the tape operations leave the cursor. */
  const PARK := Coord(1, 5)

  /** The cell of tape position `p`: `{ short(tape_display_start.X + p), tape_display_start.Y }`. */
  function TapeCell(p: int): Coord
  {
    Coord(Short(TAPE_DISPLAY_START.x + p), TAPE_DISPLAY_START.y)
  }

  /** What `tape[p]` reads from a `const std::string`: the character at p, or the terminating
      NUL at p == size(). */
  function TapeChar(tape: string, p: int): char
    requires 0 <= p <= |tape|
  {
    if p < |tape| then tape[p] else '\0'
  }

  /** Two positions an `unsigned short` can hold have the same cell only if they are equal. */
  lemma TapeCellsDistinct(p: int, q: int)
    requires 0 <= p < SHORT_RANGE && 0 <= q < SHORT_RANGE
    ensures TapeCell(p) == TapeCell(q) <==> p == q
  {
    if TapeCell(p) == TapeCell(q) {
      ShortInjective(TAPE_DISPLAY_START.x + p, TAPE_DISPLAY_START.x + q);
    }
  }

  /** The full tape as painted from the display start: the symbol at the cursor index in the
      cursor rendition, every other symbol plain. */
  function TapeRow(tape: string, cursor: int): seq<Cell>
  {
    seq(|tape|, i requires 0 <= i < |tape| => Cell(tape[i], if i == cursor then CursorAttr else PlainAttr))
  }

  /** After a full repaint, cell (5+i, 2) shows tape[i], and it is highlighted exactly when i is
      the cursor index; nothing outside the painted run changes. */
  lemma PaintedTape(cells: map<Coord, Cell>, tape: string, cursor: int)
    ensures var r := Place(cells, TAPE_DISPLAY_START, TapeRow(tape, cursor));
      && (forall i :: 0 <= i < |tape| ==>
            var c := Coord(TAPE_DISPLAY_START.x + i, TAPE_DISPLAY_START.y);
            c in r && r[c].ch == tape[i] && (r[c].attr == CursorAttr <==> i == cursor))
      && (forall c :: c in cells && !Covers(TAPE_DISPLAY_START, |tape|, c) ==> c in r && r[c] == cells[c])
  {
    PlaceAt(cells, TAPE_DISPLAY_START, TapeRow(tape, cursor));
  }

  /** Repainting an unchanged tape with an unchanged cursor changes nothing. */
  lemma RepaintIdempotent(cells: map<Coord, Cell>, tape: string, cursor: int)
    ensures var once := Place(cells, TAPE_DISPLAY_START, TapeRow(tape, cursor));
      Place(once, TAPE_DISPLAY_START, TapeRow(tape, cursor)) == once
  {
    PlaceIdempotent(cells, TAPE_DISPLAY_START, TapeRow(tape, cursor));
  }

  /** No cell other than `at` carries the cursor rendition. */
  ghost predicate HighlightOnlyAt(cells: map<Coord, Cell>, at: Coord)
  {
    forall c :: c in cells && cells[c].attr == CursorAttr ==> c == at
  }

  /** Every cell carrying the cursor rendition afterwards carried it, unchanged, before. */
  ghost predicate NoNewHighlight(before: map<Coord, Cell>, after: map<Coord, Cell>)
  {
    forall c :: c in after && after[c].attr == CursorAttr ==> c in before && after[c] == before[c]
  }

  lemma KeepsHighlight(before: map<Coord, Cell>, after: map<Coord, Cell>, at: Coord)
    requires HighlightOnlyAt(before, at) && NoNewHighlight(before, after)
    ensures HighlightOnlyAt(after, at)
  {
  }

  /** Writing in a rendition other than the cursor's adds no highlighted cell. */
  lemma PlainWriteKeeps(cells: map<Coord, Cell>, at: Coord, s: string, a: Attr)
    requires a != CursorAttr
    ensures NoNewHighlight(cells, Place(cells, at, Styled(s, a)))
  {
    PlaceAt(cells, at, Styled(s, a));
  }

  // ---------------------------------------------------------------- code line highlighting

  /** The value of the `unsigned short line_count` after the (k+1)-th `getline`. */
  function LineNumber(k: nat): U16
  {
    UShort(k + 1)
  }

  /** The row of line `n`: `short(line_count + 5)`. */
  function CodeRow(n: int): I16
  {
    Short(n + 5)
  }

  /** Does a scan over `count` records meet line number `n`? */
  predicate Reached(n: int, count: nat)
  {
    exists k :: 0 <= k < count && LineNumber(k) == n
  }

  /** Lines are numbered from 1, so line n is met once there are n records; line 0 is met only
      when `line_count` wraps back to 0, at the 65536th record. */
  lemma ReachedLine(n: U16, count: nat)
    ensures Reached(n, count) <==> if n == 0 then count >= SHORT_RANGE else n <= count
  {
    if n == 0 {
      if count >= SHORT_RANGE {
        assert LineNumber(SHORT_RANGE - 1) == 0;
      }
      if Reached(n, count) {
        var k :| 0 <= k < count && LineNumber(k) == n;
        assert k + 1 >= SHORT_RANGE;
      }
    } else {
      if n <= count {
        assert LineNumber(n - 1) == n;
      }
      if Reached(n, count) {
        var k :| 0 <= k < count && LineNumber(k) == n;
        assert (k + 1) % SHORT_RANGE == n;
        assert k + 1 >= n;
      }
    }
  }

  datatype ScanResult = ScanResult(screen: Screen, resetted: bool, colored: bool)

  /** One pass of the scan loop over record k: the previous current line is rewritten plain,
      then the target line is rewritten in the current-line rendition, followed by a reset. */
  function ScanStep(records: seq<string>, k: nat, current: int, target: int, scr: Screen): Screen
    requires k < |records|
  {
    var n := LineNumber(k);
    var row := Coord(0, CodeRow(n));
    var s1 := if n == current then scr.MoveTo(row).Recolor(Reset).Print(records[k]) else scr;
    if n == target then s1.MoveTo(row).Recolor(GreenBg).Print(records[k]).Recolor(Reset) else s1
  }

  /** A scan step that rewrites record k leaves it, whole, in its row: plain, or in the
      current-line rendition when it is the target. */
  lemma ScanStepWrites(records: seq<string>, k: nat, current: int, target: int, scr: Screen, i: int)
    requires k < |records| && scr.attr == PlainAttr
    requires LineNumber(k) == current || LineNumber(k) == target
    requires 0 <= i < |records[k]|
    ensures var out := ScanStep(records, k, current, target, scr).cells;
      var c := Coord(i, CodeRow(LineNumber(k)));
      c in out && out[c] == Cell(records[k][i], if LineNumber(k) == target then CurrentLineAttr else PlainAttr)
  {
    var n := LineNumber(k);
    var row := Coord(0, CodeRow(n));
    var s1 := if n == current then scr.MoveTo(row).Recolor(Reset).Print(records[k]) else scr;
    PrintAt(scr.MoveTo(row).Recolor(Reset), records[k]);
    PrintAt(s1.MoveTo(row).Recolor(GreenBg), records[k]);
    RenditionsFromReset(PlainAttr);
  }

  /** A scan step changes nothing outside the row of record k, nor anything when record k is
      neither line. */
  lemma ScanStepFrame(records: seq<string>, k: nat, current: int, target: int, scr: Screen, c: Coord)
    requires k < |records|
    requires (LineNumber(k) == current || LineNumber(k) == target) ==> CodeRow(LineNumber(k)) != c.y
    ensures var out := ScanStep(records, k, current, target, scr).cells;
      (c in out <==> c in scr.cells) && (c in out ==> out[c] == scr.cells[c])
  {
    var n := LineNumber(k);
    var row := Coord(0, CodeRow(n));
    var s1 := if n == current then scr.MoveTo(row).Recolor(Reset).Print(records[k]) else scr;
    PrintAt(scr.MoveTo(row).Recolor(Reset), records[k]);
    PrintAt(s1.MoveTo(row).Recolor(GreenBg), records[k]);
  }

  /** The scan from record k on, stopping at the end of the records or once both rewrites are done. */
  function ScanFrom(records: seq<string>, k: nat, current: int, target: int,
                    resetted: bool, colored: bool, scr: Screen): ScanResult
    decreases |records| - k
  {
    if k >= |records| || (resetted && colored) then ScanResult(scr, resetted, colored)
    else
      var n := LineNumber(k);
      ScanFrom(records, k + 1, current, target, resetted || n == current, colored || n == target,
               ScanStep(records, k, current, target, scr))
  }

  /** One pass of the scan loop, unfolded. */
  lemma ScanFromNext(records: seq<string>, k: nat, current: int, target: int,
                     resetted: bool, colored: bool, scr: Screen)
    requires k < |records| && !(resetted && colored)
    ensures ScanFrom(records, k, current, target, resetted, colored, scr)
         == ScanFrom(records, k + 1, current, target, resetted || LineNumber(k) == current,
                     colored || LineNumber(k) == target, ScanStep(records, k, current, target, scr))
  {
  }

  /** The whole scan of `set_current_code_line`. */
  function Scan(records: seq<string>, current: int, target: int, scr: Screen): ScanResult
  {
    ScanFrom(records, 0, current, target, false, false, scr)
  }

  lemma {:induction false} ScanFromColored(records: seq<string>, k: nat, current: int, target: int,
                                           resetted: bool, colored: bool, scr: Screen)
    ensures ScanFrom(records, k, current, target, resetted, colored, scr).colored
            <==> colored || exists j :: k <= j < |records| && LineNumber(j) == target
    decreases |records| - k
  {
    if k < |records| && !(resetted && colored) {
      var n := LineNumber(k);
      ScanFromColored(records, k + 1, current, target, resetted || n == current, colored || n == target,
                      ScanStep(records, k, current, target, scr));
      if exists j :: k <= j < |records| && LineNumber(j) == target {
        var j :| k <= j < |records| && LineNumber(j) == target;
        if j > k {
          assert k + 1 <= j < |records| && LineNumber(j) == target;
        }
      }
    }
  }

  /** The target line is highlighted exactly when the scan reaches it. */
  lemma ScanColored(records: seq<string>, current: int, target: int, scr: Screen)
    ensures Scan(records, current, target, scr).colored <==> Reached(target, |records|)
  {
    ScanFromColored(records, 0, current, target, false, false, scr);
  }

  /** One scan step from a reset rendition ends reset and adds no cursor highlight. */
  lemma ScanStepPlain(records: seq<string>, k: nat, current: int, target: int, scr: Screen)
    requires k < |records| && scr.attr == PlainAttr
    ensures ScanStep(records, k, current, target, scr).attr == PlainAttr
    ensures NoNewHighlight(scr.cells, ScanStep(records, k, current, target, scr).cells)
  {
    var n := LineNumber(k);
    var row := Coord(0, CodeRow(n));
    var s1 := if n == current then scr.MoveTo(row).Recolor(Reset).Print(records[k]) else scr;
    PlainWriteKeeps(scr.cells, row, records[k], PlainAttr);
    PlainWriteKeeps(s1.cells, row, records[k], CurrentLineAttr);
    RenditionsFromReset(PlainAttr);
  }

  lemma {:induction false} ScanFromPlain(records: seq<string>, k: nat, current: int, target: int,
                                         resetted: bool, colored: bool, scr: Screen)
    requires scr.attr == PlainAttr
    ensures var out := ScanFrom(records, k, current, target, resetted, colored, scr).screen;
      out.attr == PlainAttr && NoNewHighlight(scr.cells, out.cells)
    decreases |records| - k
  {
    if k < |records| && !(resetted && colored) {
      var n := LineNumber(k);
      var next := ScanStep(records, k, current, target, scr);
      ScanStepPlain(records, k, current, target, scr);
      ScanFromPlain(records, k + 1, current, target, resetted || n == current, colored || n == target, next);
    }
  }

  /** The scan ends with a reset rendition and highlights no tape cell. */
  lemma ScanPlain(records: seq<string>, current: int, target: int, scr: Screen)
    requires scr.attr == PlainAttr
    ensures Scan(records, current, target, scr).screen.attr == PlainAttr
    ensures NoNewHighlight(scr.cells, Scan(records, current, target, scr).screen.cells)
  {
    ScanFromPlain(records, 0, current, target, false, false, scr);
  }

  lemma {:induction false} ScanFromFrame(records: seq<string>, k: nat, current: int, target: int,
                                         resetted: bool, colored: bool, scr: Screen, c: Coord)
    requires forall j :: k <= j < |records| && (LineNumber(j) == current || LineNumber(j) == target)
                         ==> CodeRow(LineNumber(j)) != c.y
    ensures var out := ScanFrom(records, k, current, target, resetted, colored, scr).screen.cells;
      (c in out <==> c in scr.cells) && (c in out ==> out[c] == scr.cells[c])
    decreases |records| - k
  {
    if k < |records| && !(resetted && colored) {
      var n := LineNumber(k);
      ScanStepFrame(records, k, current, target, scr, c);
      ScanFromFrame(records, k + 1, current, target, resetted || n == current, colored || n == target,
                    ScanStep(records, k, current, target, scr), c);
    }
  }

  /** The scan touches only the rows of the previous current line and of the target line. */
  lemma ScanOtherRows(records: seq<string>, current: int, target: int, scr: Screen, c: Coord)
    requires c.y != CodeRow(current) && c.y != CodeRow(target)
    ensures var out := Scan(records, current, target, scr).screen.cells;
      (c in out <==> c in scr.cells) && (c in out ==> out[c] == scr.cells[c])
  {
    ScanFromFrame(records, 0, current, target, false, false, scr, c);
  }

  lemma {:induction false} ScanFromRow(records: seq<string>, k: nat, current: int, target: int,
                                       resetted: bool, colored: bool, scr: Screen, n: int, i: int)
    requires |records| < SHORT_RANGE
    requires n == current || n == target
    requires 1 <= n <= |records| && k <= n - 1
    requires n == current ==> !resetted
    requires n == target ==> !colored
    requires scr.attr == PlainAttr
    requires 0 <= i < |records[n - 1]|
    ensures var out := ScanFrom(records, k, current, target, resetted, colored, scr).screen.cells;
      var c := Coord(i, CodeRow(n));
      c in out && out[c] == Cell(records[n - 1][i], if n == target then CurrentLineAttr else PlainAttr)
    decreases |records| - k
  {
    var m := LineNumber(k);
    assert m == k + 1;
    var next := ScanStep(records, k, current, target, scr);
    if k < n - 1 {
      ScanFromPlain(records, k, current, target, resetted, colored, scr);
      assert next.attr == PlainAttr;
      ScanFromRow(records, k + 1, current, target, resetted || m == current, colored || m == target, next, n, i);
    } else {
      var c := Coord(i, CodeRow(n));
      ScanStepWrites(records, k, current, target, scr, i);
      forall j | k + 1 <= j < |records| && (LineNumber(j) == current || LineNumber(j) == target)
        ensures CodeRow(LineNumber(j)) != c.y
      {
        assert LineNumber(j) == j + 1;
        if CodeRow(j + 1) == CodeRow(n) {
          ShortInjective(j + 1 + 5, n + 5);
        }
      }
      ScanFromFrame(records, k + 1, current, target, resetted || m == current, colored || m == target, next, c);
    }
  }

  /** With fewer than 65536 lines, a reached target line n is written, whole, in row n+5 with the
      current-line rendition; and the previous current line, when it is reached and differs from
      the target, is written back plain, whether or not the target was found. */
  lemma ScanRow(records: seq<string>, current: int, target: int, scr: Screen, n: int, i: int)
    requires |records| < SHORT_RANGE
    requires n == current || n == target
    requires 1 <= n <= |records|
    requires scr.attr == PlainAttr
    requires 0 <= i < |records[n - 1]|
    ensures var out := Scan(records, current, target, scr).screen.cells;
      var c := Coord(i, CodeRow(n));
      c in out && out[c] == Cell(records[n - 1][i], if n == target then CurrentLineAttr else PlainAttr)
  {
    ScanFromRow(records, 0, current, target, false, false, scr, n, i);
  }

  /** Highlighting L1 and then L2 (both reached, L1 != L2) leaves L1 plain and L2 highlighted. */
  lemma HighlightTwice(records: seq<string>, first: U16, second: U16, cur0: int, scr: Screen, i: int, j: int)
    requires |records| < SHORT_RANGE
    requires 1 <= first <= |records| && 1 <= second <= |records| && first != second
    requires scr.attr == PlainAttr
    requires 0 <= i < |records[first - 1]| && 0 <= j < |records[second - 1]|
    ensures var s1 := Scan(records, cur0, first, scr);
      var s2 := Scan(records, first, second, s1.screen);
      && s1.colored && s2.colored
      && Coord(i, CodeRow(first)) in s2.screen.cells
      && s2.screen.cells[Coord(i, CodeRow(first))] == Cell(records[first - 1][i], PlainAttr)
      && Coord(j, CodeRow(second)) in s2.screen.cells
      && s2.screen.cells[Coord(j, CodeRow(second))] == Cell(records[second - 1][j], CurrentLineAttr)
  {
    var s1 := Scan(records, cur0, first, scr);
    ScanColored(records, cur0, first, scr);
    ReachedLine(first, |records|);
    ScanPlain(records, cur0, first, scr);
    ScanColored(records, first, second, s1.screen);
    ReachedLine(second, |records|);
    ScanRow(records, first, second, s1.screen, first, i);
    ScanRow(records, first, second, s1.screen, second, j);
  }

  // ---------------------------------------------------------------- program listing

  const CODE_START := Coord(0, 5)

  /** Is character i inside a comment: at or after a ';' with no '\n' in between? */
  predicate InComment(cs: string, i: int)
    requires 0 <= i < |cs|
  {
    exists j :: 0 <= j <= i && cs[j] == ';' && forall m :: j < m <= i ==> cs[m] != '\n'
  }

  /** The listing as it should look: comment characters in the comment rendition, all others plain. */
  function Commented(cs: string): seq<Cell>
  {
    seq(|cs|, i requires 0 <= i < |cs| => Cell(cs[i], if InComment(cs, i) then CommentAttr else PlainAttr))
  }

  /** One pass of the listing loop: ';' selects the comment colour, '\n' resets, then the
      character is written. */
  function ListingStep(scr: Screen, ch: char): Screen
  {
    var s := if ch == ';' then scr.Recolor(LightBlackFg) else if ch == '\n' then scr.Recolor(Reset) else scr;
    s.Print([ch])
  }

  /** Writing the characters `cs` with `ListingStep`, in order. */
  function Listing(scr: Screen, cs: string): Screen
    decreases |cs|
  {
    if cs == [] then scr else ListingStep(Listing(scr, cs[..|cs| - 1]), cs[|cs| - 1])
  }

  /** Writing one more character is one more listing step. */
  lemma ListingSnoc(scr: Screen, cs: string, ch: char)
    ensures Listing(scr, cs + [ch]) == ListingStep(Listing(scr, cs), ch)
  {
    assert (cs + [ch])[..|cs|] == cs;
  }

  /** The loop's colour rule, character by character: a character is in a comment exactly when it
      is ';', or it is not '\n' and follows a character in a comment. */
  lemma InCommentStep(cs: string, n: int)
    requires 0 <= n < |cs|
    ensures InComment(cs, n) <==> cs[n] == ';' || (cs[n] != '\n' && n > 0 && InComment(cs, n - 1))
  {
    if InComment(cs, n) {
      var j :| 0 <= j <= n && cs[j] == ';' && forall m :: j < m <= n ==> cs[m] != '\n';
      if j < n {
        assert InComment(cs, n - 1);
      }
    }
    if cs[n] != ';' && cs[n] != '\n' && n > 0 && InComment(cs, n - 1) {
      var j :| 0 <= j <= n - 1 && cs[j] == ';' && forall m :: j < m <= n - 1 ==> cs[m] != '\n';
      assert forall m :: j < m <= n ==> cs[m] != '\n';
    }
  }

  lemma InCommentPrefix(cs: string, n: int, i: int)
    requires 0 <= i < n <= |cs|
    ensures InComment(cs[..n], i) <==> InComment(cs, i)
  {
    var p := cs[..n];
    if InComment(p, i) {
      var j :| 0 <= j <= i && p[j] == ';' && forall m :: j < m <= i ==> p[m] != '\n';
      assert cs[j] == ';' && forall m :: j < m <= i ==> cs[m] != '\n';
    }
    if InComment(cs, i) {
      var j :| 0 <= j <= i && cs[j] == ';' && forall m :: j < m <= i ==> cs[m] != '\n';
      assert p[j] == ';' && forall m :: j < m <= i ==> p[m] != '\n';
    }
  }

  /** The cell character i of a listing should become. */
  function CommentCell(cs: string, i: int): Cell
    requires 0 <= i < |cs|
  {
    Cell(cs[i], if InComment(cs, i) then CommentAttr else PlainAttr)
  }

  /** The expected listing of a text is that of the text without its last character, plus
      that character in the rendition its comment state asks for. */
  lemma CommentedSnoc(cs: string)
    requires cs != []
    ensures Commented(cs) == Commented(cs[..|cs| - 1]) + [CommentCell(cs, |cs| - 1)]
  {
    var n := |cs| - 1;
    forall i | 0 <= i < n
      ensures Commented(cs)[i] == Commented(cs[..n])[i]
    {
      InCommentPrefix(cs, n, i);
    }
  }

  /** The rendition a listing step leaves, from either rendition of the listing. */
  lemma ListingStepAttr(cs: string, before: Screen)
    requires cs != []
    requires before.attr == if |cs| > 1 && InComment(cs[..|cs| - 1], |cs| - 2) then CommentAttr else PlainAttr
    ensures ListingStep(before, cs[|cs| - 1]).attr == if InComment(cs, |cs| - 1) then CommentAttr else PlainAttr
  {
    var n := |cs| - 1;
    if n > 0 {
      InCommentPrefix(cs, n, n - 1);
    }
    InCommentStep(cs, n);
  }

  /** Starting from a reset rendition, the listing writes exactly `Commented(cs)` from the cursor,
      and ends in the comment rendition exactly when its last character is inside a comment. */
  lemma {:induction false} ListingWrites(scr: Screen, cs: string)
    requires scr.attr == PlainAttr
    ensures Listing(scr, cs).cursor == Coord(scr.cursor.x + |cs|, scr.cursor.y)
    ensures Listing(scr, cs).attr == if cs != [] && InComment(cs, |cs| - 1) then CommentAttr else PlainAttr
    ensures Listing(scr, cs).cells == Place(scr.cells, scr.cursor, Commented(cs))
    decreases |cs|
  {
    if cs != [] {
      var n := |cs| - 1;
      var init := cs[..n];
      var before := Listing(scr, init);
      ListingWrites(scr, init);
      ListingStepWrites(scr, cs, before);
      assert Listing(scr, cs) == ListingStep(before, cs[n]);
    }
  }

  lemma ListingStepWrites(scr: Screen, cs: string, before: Screen)
    requires cs != []
    requires before.cursor == Coord(scr.cursor.x + |cs| - 1, scr.cursor.y)
    requires before.attr == if |cs| > 1 && InComment(cs[..|cs| - 1], |cs| - 2) then CommentAttr else PlainAttr
    requires before.cells == Place(scr.cells, scr.cursor, Commented(cs[..|cs| - 1]))
    ensures var after := ListingStep(before, cs[|cs| - 1]);
      && after.cursor == Coord(scr.cursor.x + |cs|, scr.cursor.y)
      && after.attr == CommentCell(cs, |cs| - 1).attr
      && after.cells == Place(scr.cells, scr.cursor, Commented(cs))
  {
    var n := |cs| - 1;
    var ch := cs[n];
    var recolored := if ch == ';' then before.Recolor(LightBlackFg) else if ch == '\n' then before.Recolor(Reset) else before;
    assert recolored.cells == before.cells && recolored.cursor == before.cursor;
    ListingStepAttr(cs, before);
    var last := CommentCell(cs, n);
    PrintOne(recolored, ch);
    CommentedSnoc(cs);
    PlaceSnoc(scr.cells, scr.cursor, Commented(cs[..n]), last);
  }

  /** The listing ends with the comment or the reset rendition and highlights no tape cell. */
  lemma ListingPlain(scr: Screen, cs: string)
    requires scr.attr == PlainAttr
    ensures NoNewHighlight(scr.cells, Listing(scr, cs).cells)
  {
    ListingWrites(scr, cs);
    PlaceAt(scr.cells, scr.cursor, Commented(cs));
  }

  /** The listing of "MOV;comment\nHALT": MOV plain, ";comment" in the comment rendition,
      the newline and HALT plain. */
  lemma ListingExample()
    ensures var cs := "MOV;comment\nHALT";
      && (forall i :: 0 <= i < 3 ==> !InComment(cs, i))
      && (forall i :: 3 <= i < 11 ==> InComment(cs, i))
      && (forall i :: 11 <= i < |cs| ==> !InComment(cs, i))
  {
    var cs := "MOV;comment\nHALT";
    forall i | 3 <= i < 11
      ensures InComment(cs, i)
    {
      assert cs[3] == ';' && forall m :: 3 < m <= i ==> cs[m] != '\n';
    }
    forall i | 0 <= i < |cs| && !(3 <= i < 11)
      ensures !InComment(cs, i)
    {
      assert forall j :: 0 <= j <= i && cs[j] == ';' ==> j == 3;
      assert i >= 11 ==> cs[11] == '\n';
    }
  }

  // ---------------------------------------------------------------- scroller blocks

  /** The character of a 3x3 scroller block at (row, column) within the block. */
  function Glyph(row: int, col: int, arrow: char): char
  {
    if row == 2 && col == 1 then arrow else ' '
  }

  /** The column where the right block starts: `short(width - 1 - 3)`. */
  function RightBlockX(width: int): I16
  {
    Short(width - 1 - 3)
  }

  /** One scroller block drawn from column x in rendition a: "   ", " <arrow> ", "   " on rows 1-3. */
  function Block(cells: map<Coord, Cell>, x: int, arrow: char, a: Attr): map<Coord, Cell>
  {
    var top := Place(cells, Coord(x, 1), Styled("   ", a));
    var middle := Place(top, Coord(x, 2), Styled([' ', arrow, ' '], a));
    Place(middle, Coord(x, 3), Styled("   ", a))
  }

  /** A block fills exactly the 3x3 square at columns x..x+2 of rows 1-3, with the arrow in its
      centre, and leaves every other cell as it was. */
  lemma BlockAt(cells: map<Coord, Cell>, x: int, arrow: char, a: Attr)
    ensures var r := Block(cells, x, arrow, a);
      && (forall c: Coord :: 1 <= c.y <= 3 && x <= c.x < x + 3 ==> c in r && r[c] == Cell(Glyph(c.y, c.x - x, arrow), a))
      && (forall c: Coord :: !(1 <= c.y <= 3 && x <= c.x < x + 3) ==> (c in r <==> c in cells) && (c in r ==> r[c] == cells[c]))
  {
    var blank := Styled("   ", a);
    var centre := Styled([' ', arrow, ' '], a);
    var top := Place(cells, Coord(x, 1), blank);
    var middle := Place(top, Coord(x, 2), centre);
    var r := Place(middle, Coord(x, 3), blank);
    PlaceAt(cells, Coord(x, 1), blank);
    PlaceAt(top, Coord(x, 2), centre);
    PlaceAt(middle, Coord(x, 3), blank);
    forall c: Coord | 1 <= c.y <= 3 && x <= c.x < x + 3
      ensures c in r && r[c] == Cell(Glyph(c.y, c.x - x, arrow), a)
    {
      if c.y == 1 {
        assert Covers(Coord(x, 1), |blank|, c) && blank[c.x - x] == Cell(' ', a);
      } else if c.y == 2 {
        assert Covers(Coord(x, 2), |centre|, c) && centre[c.x - x] == Cell(Glyph(2, c.x - x, arrow), a);
      } else {
        assert Covers(Coord(x, 3), |blank|, c) && blank[c.x - x] == Cell(' ', a);
      }
    }
  }

  /** What the scrollers put in cell c, if anything: the left block fills columns 1-3 and the right
      block columns width-4..width-2 of rows 1-3, the right one drawn last; the middle of each
      shows its arrow; a block's background tells whether it is disabled. */
  function ScrollerCell(c: Coord, width: int, leftDisabled: bool, rightDisabled: bool): Option<Cell>
  {
    var rx := RightBlockX(width);
    if 1 <= c.y <= 3 && rx <= c.x < rx + 3 then Some(Cell(Glyph(c.y, c.x - rx, '>'), ScrollerAttr(rightDisabled)))
    else if 1 <= c.y <= 3 && 1 <= c.x < 4 then Some(Cell(Glyph(c.y, c.x - 1, '<'), ScrollerAttr(leftDisabled)))
    else None
  }

  /** Both scroller blocks, the left one first. */
  function Scrollers(cells: map<Coord, Cell>, width: int, leftDisabled: bool, rightDisabled: bool): map<Coord, Cell>
  {
    Block(Block(cells, 1, '<', ScrollerAttr(leftDisabled)), RightBlockX(width), '>', ScrollerAttr(rightDisabled))
  }

  /** Drawing the scrollers puts in every cell what `ScrollerCell` says and leaves the cells it
      says nothing about alone. */
  lemma ScrollersAt(cells: map<Coord, Cell>, width: int, leftDisabled: bool, rightDisabled: bool)
    ensures var r := Scrollers(cells, width, leftDisabled, rightDisabled);
      && (forall c :: ScrollerCell(c, width, leftDisabled, rightDisabled).Some? ==>
            c in r && r[c] == ScrollerCell(c, width, leftDisabled, rightDisabled).value)
      && (forall c :: ScrollerCell(c, width, leftDisabled, rightDisabled).None? ==>
            (c in r <==> c in cells) && (c in r ==> r[c] == cells[c]))
  {
    var left := Block(cells, 1, '<', ScrollerAttr(leftDisabled));
    var r := Block(left, RightBlockX(width), '>', ScrollerAttr(rightDisabled));
    BlockAt(cells, 1, '<', ScrollerAttr(leftDisabled));
    BlockAt(left, RightBlockX(width), '>', ScrollerAttr(rightDisabled));
    var rx := RightBlockX(width);
    forall c: Coord | ScrollerCell(c, width, leftDisabled, rightDisabled).Some?
      ensures c in r && r[c] == ScrollerCell(c, width, leftDisabled, rightDisabled).value
    {
      if !(1 <= c.y <= 3 && rx <= c.x < rx + 3) {
        assert 1 <= c.y <= 3 && 1 <= c.x < 4;
        assert c in left && left[c] == Cell(Glyph(c.y, c.x - 1, '<'), ScrollerAttr(leftDisabled));
      }
    }
    forall c: Coord | ScrollerCell(c, width, leftDisabled, rightDisabled).None?
      ensures (c in r <==> c in cells) && (c in r ==> r[c] == cells[c])
    {
    }
  }

  /** The scroller renditions are not the cursor's, so drawing the scrollers highlights nothing. */
  lemma ScrollersPlain(cells: map<Coord, Cell>, width: int, leftDisabled: bool, rightDisabled: bool)
    ensures NoNewHighlight(cells, Scrollers(cells, width, leftDisabled, rightDisabled))
  {
    ScrollersAt(cells, width, leftDisabled, rightDisabled);
    assert ScrollerAttr(leftDisabled) != CursorAttr && ScrollerAttr(rightDisabled) != CursorAttr;
  }

  /** On a console at least 8 columns wide the blocks do not meet: the left block shows " < "
      between blank rows in its own rendition at columns 1-3, and the right one " > " at
      columns width-4..width-2. */
  lemma ScrollerBlocks(width: I16, leftDisabled: bool, rightDisabled: bool)
    requires 8 <= width
    ensures forall c: Coord :: 1 <= c.y <= 3 && 1 <= c.x < 4 ==>
      ScrollerCell(c, width, leftDisabled, rightDisabled) == Some(Cell(Glyph(c.y, c.x - 1, '<'), ScrollerAttr(leftDisabled)))
    ensures forall c: Coord :: 1 <= c.y <= 3 && width - 4 <= c.x < width - 1 ==>
      ScrollerCell(c, width, leftDisabled, rightDisabled) == Some(Cell(Glyph(c.y, c.x - (width - 4), '>'), ScrollerAttr(rightDisabled)))
    ensures ScrollerCell(Coord(2, 2), width, leftDisabled, rightDisabled) == Some(Cell('<', ScrollerAttr(leftDisabled)))
    ensures ScrollerCell(Coord(width - 3, 2), width, leftDisabled, rightDisabled) == Some(Cell('>', ScrollerAttr(rightDisabled)))
  {
    assert RightBlockX(width) == width - 4;
  }
}
