/**
 * An abstract ECMA-48 terminal: a cursor, the current graphic rendition
 * (foreground and background) and the characters written so far, each with
 * the rendition it was written in. Writing a character stores it at the
 * cursor and advances the cursor one column; line wrapping and scrolling
 * are not part of the model.
 */
module Screens {
  import opened Wrappers
  import opened Colors
  import Sgr

  /** A cell position: column `x`, row `y`, (0, 0) at the top left. */
  datatype Coord = Coord(x: int, y: int)

  /** The colour of one layer: the terminal default or one of the eight hues. */
  datatype Tint = Default | Tinted(bright: bool, hue: Hue)

  datatype Attr = Attr(fg: Tint, bg: Tint)

  datatype Cell = Cell(ch: char, attr: Attr)

  /** The rendition after SGR 0. */
  const PlainAttr := Attr(Default, Default)

  /** What selecting an enum member does to the rendition. */
  function Effect(a: Attr, c: Color): Attr
  {
    match c
    case Reset => PlainAttr
    case Paint(Foreground, bright, hue) => a.(fg := Tinted(bright, hue))
    case Paint(Background, bright, hue) => a.(bg := Tinted(bright, hue))
  }

  /** What an SGR parameter does; parameters outside the enum leave the rendition alone. */
  function ApplySgr(a: Attr, n: int): Attr
  {
    match Decode(n)
    case Some(c) => Effect(a, c)
    case None => a
  }

  /** Selected attributes accumulate: 0 resets both layers, 30-37 and 90-97 change only
      the foreground, 40-47 and 100-107 change only the background. */
  lemma SgrLayers(a: Attr, n: int)
    ensures n == 0 ==> ApplySgr(a, n) == PlainAttr
    ensures 30 <= n <= 37 ==> ApplySgr(a, n) == a.(fg := Tinted(false, n - 30))
    ensures 90 <= n <= 97 ==> ApplySgr(a, n) == a.(fg := Tinted(true, n - 90))
    ensures 40 <= n <= 47 ==> ApplySgr(a, n) == a.(bg := Tinted(false, n - 40))
    ensures 100 <= n <= 107 ==> ApplySgr(a, n) == a.(bg := Tinted(true, n - 100))
  {
  }

  /** Does a run of `n` cells starting at `at` cover `c`? */
  predicate Covers(at: Coord, n: nat, c: Coord)
  {
    c.y == at.y && at.x <= c.x < at.x + n
  }

  /** The cells `s` occupies when written in rendition `a`. */
  function Styled(s: string, a: Attr): seq<Cell>
  {
    seq(|s|, i requires 0 <= i < |s| => Cell(s[i], a))
  }

  /** The cell map after writing `out` one cell at a time from `at`, advancing one column per cell. */
  function Place(cells: map<Coord, Cell>, at: Coord, out: seq<Cell>): map<Coord, Cell>
    decreases |out|
  {
    if out == [] then cells
    else Place(cells[at := out[0]], Coord(at.x + 1, at.y), out[1..])
  }

  /** Writing `out` from `at` covers exactly the columns `at.x .. at.x + |out|` of row `at.y`,
      gives each the cell written there, and leaves every other cell as it was. */
  lemma {:induction false} PlaceAt(cells: map<Coord, Cell>, at: Coord, out: seq<Cell>)
    ensures forall c :: c in Place(cells, at, out) <==> c in cells || Covers(at, |out|, c)
    ensures forall c :: Covers(at, |out|, c) ==> Place(cells, at, out)[c] == out[c.x - at.x]
    ensures forall c :: c in cells && !Covers(at, |out|, c) ==> Place(cells, at, out)[c] == cells[c]
    decreases |out|
  {
    if out != [] {
      PlaceAt(cells[at := out[0]], Coord(at.x + 1, at.y), out[1..]);
    }
  }

  /** Writing one more cell is a single update at the next column. */
  lemma PlaceSnoc(cells: map<Coord, Cell>, at: Coord, out: seq<Cell>, last: Cell)
    ensures Place(cells, at, out + [last]) == Place(cells, at, out)[Coord(at.x + |out|, at.y) := last]
  {
    var lhs := Place(cells, at, out + [last]);
    var rhs := Place(cells, at, out)[Coord(at.x + |out|, at.y) := last];
    PlaceAt(cells, at, out + [last]);
    PlaceAt(cells, at, out);
    assert forall c :: c in lhs <==> c in rhs;
    forall c | c in lhs
      ensures lhs[c] == rhs[c]
    {
      if Covers(at, |out|, c) {
        assert (out + [last])[c.x - at.x] == out[c.x - at.x];
      }
    }
  }

  /** Writing a single character is an update of the cell at the cursor. */
  lemma PrintOne(scr: Screen, ch: char)
    ensures scr.Print([ch]).cells == scr.cells[scr.cursor := Cell(ch, scr.attr)]
    ensures scr.Print([ch]).cursor == Coord(scr.cursor.x + 1, scr.cursor.y)
  {
    var out := [Cell(ch, scr.attr)];
    assert Styled([ch], scr.attr) == out;
    assert out[1..] == [];
    assert Place(scr.cells, scr.cursor, out) == Place(scr.cells[scr.cursor := out[0]], Coord(scr.cursor.x + 1, scr.cursor.y), []);
  }

  /** Writing the same cells at the same place twice leaves what writing them once does. */
  lemma PlaceIdempotent(cells: map<Coord, Cell>, at: Coord, out: seq<Cell>)
    ensures Place(Place(cells, at, out), at, out) == Place(cells, at, out)
  {
    var once := Place(cells, at, out);
    var twice := Place(once, at, out);
    PlaceAt(cells, at, out);
    PlaceAt(once, at, out);
    assert forall c :: c in twice <==> c in once;
    assert forall c :: c in twice ==> twice[c] == once[c];
  }

  /** The terminal state, as a value. */
  datatype Screen = Screen(cursor: Coord, attr: Attr, cells: map<Coord, Cell>)
  {
    function MoveTo(c: Coord): Screen
    {
      this.(cursor := c)
    }

    /** The effect of receiving a control sequence; only SGR is interpreted. */
    function Control(esc: string): Screen
    {
      match Sgr.Parse(esc)
      case Some(n) => this.(attr := ApplySgr(attr, n))
      case None => this
    }

    /** Selecting one enum member. */
    function Recolor(c: Color): Screen
    {
      this.(attr := Effect(attr, c))
    }

    function Print(s: string): Screen
    {
      Screen(Coord(cursor.x + |s|, cursor.y), attr, Place(cells, cursor, Styled(s, attr)))
    }

    /** Clearing the screen: no cell holds anything and the cursor is home. */
    function Erase(): Screen
    {
      Screen(Coord(0, 0), attr, map[])
    }
  }

  /** Printing `s` fills the next |s| columns of the cursor's row with the characters of `s` in
      the current rendition and leaves every other cell alone. */
  lemma PrintAt(scr: Screen, s: string)
    ensures var r := scr.Print(s).cells; var at := scr.cursor;
      && (forall c :: c in r <==> c in scr.cells || Covers(at, |s|, c))
      && (forall c :: Covers(at, |s|, c) ==> r[c] == Cell(s[c.x - at.x], scr.attr))
      && (forall c :: c in scr.cells && !Covers(at, |s|, c) ==> r[c] == scr.cells[c])
  {
    PlaceAt(scr.cells, scr.cursor, Styled(s, scr.attr));
  }

  /** Sending the SGR sequence of an enum member selects that member. */
  lemma ControlSelects(scr: Screen, c: Color)
    ensures scr.Control(Sgr.Sequence(Code(c))) == scr.Recolor(c)
  {
    Sgr.ParseSequence(Code(c));
    DecodeCode(c);
  }

  /** The console device the renderer owns. */
  class Terminal {
    var cursor: Coord
    var attr: Attr
    var cells: map<Coord, Cell>

    function View(): Screen
      reads this
    {
      Screen(cursor, attr, cells)
    }

    /** The console as the process finds it: any cursor, rendition and contents. */
    constructor (c: Coord, a: Attr, cs: map<Coord, Cell>)
      ensures View() == Screen(c, a, cs)
    {
      cursor, attr, cells := c, a, cs;
    }

    method SetPosition(c: Coord)
      modifies this
      ensures View() == old(View()).MoveTo(c)
    {
      cursor := c;
    }

    method Control(esc: string)
      modifies this
      ensures View() == old(View()).Control(esc)
    {
      match Sgr.Parse(esc)
      case Some(n) => attr := ApplySgr(attr, n);
      case None =>
    }

    method Write(s: string)
      modifies this
      ensures View() == old(View()).Print(s)
    {
      cells := Place(cells, cursor, Styled(s, attr));
      cursor := Coord(cursor.x + |s|, cursor.y);
    }

    method Erase()
      modifies this
      ensures View() == old(View()).Erase()
    {
      cells := map[];
      cursor := Coord(0, 0);
    }
  }
}
