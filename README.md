# TuringConsole, modelled in Dafny

`TuringConsole` is the text front end of a Turing-machine interpreter. It draws
three things on a console:

- a tape strip on row 2, starting at column 5, with the head's cell in a cyan
  background;
- two 3x3 scroller buttons on rows 1-3, one at each end of the tape;
- the program listing from row 5 on, with `;` comments in bright black and the
  current program line in a green background.

It does all of this with three console primitives:

- moving the cursor;
- sending an ECMA-48 SELECT GRAPHIC RENDITION sequence, `ESC [ n m`
  (section 8.3.117 of ECMA-48);
- writing characters at the cursor.

The model follows that structure:

- `Wrappers`: an `Option` type.
- `Widths`: the C++ integer widths the code relies on:
  - `short` coordinates, which wrap;
  - the `unsigned short` line counter and display width, which wrap;
  - the `unsigned int` positions.
- `Colors`: the colour macros and the `color` enum. It has an encoding to the
  numeric codes and a decoding back.
- `Sgr`: the control sequence `set_color` sends, and how a terminal parses it.
- `Screens`: an abstract terminal, as a value (`Screen`) and as a mutable object
  (`Terminal`). Its state is:
  - a cursor;
  - the current rendition (foreground, background);
  - a map from cells to the character and rendition written there.

  Renditions accumulate: `0` resets both layers, and every other code changes
  one layer only.
- `CodeFiles`: the program file, as the `std::ifstream` the console reads. It
  has its text, an open flag, a read position and the end-of-file and failure
  flags. It supports `get()`, `std::getline`, `clear()` and `seekg(0)`, with the
  outcomes the C++ standard gives them. The text's records are what successive `getline` calls
  yield.
- `Rendering`: specification functions for what each drawing operation should
  leave on the screen, and the lemmas that give them meaning:
  - the tape row and its single highlight;
  - the line scan of `set_current_code_line`;
  - the comment colouring of the listing;
  - the scroller blocks.
- `Console`: the `TuringConsole` class. Its fields and methods follow the C++
  class. Each method is proved against the `Rendering` functions, and the class
  invariant `Valid()` is kept between calls. The invariant says:
  - the rendition is reset;
  - both positions fit their 16-bit ranges;
  - on a console at least 10 columns wide, no tape cell except the head's
    carries the cursor rendition.

Quirks of the code are modelled as written:

- `print_turing_code` tests `good()` before `get()`, so the failed `get()` at
  end of file still prints `(char)EOF`, the character `'\U{FF}'`.
- `print_turing_code` does not rewind the stream before it reads, and it starts
  its listing at row 5.
- `set_current_code_line` writes line n at row n+5.
- A file ending in `'\n'` has an extra, empty, last line.
- Lines are numbered from 1. Line 0 is reached only by an `unsigned short` line
  counter that wraps after 65536 lines.
- `tape_display_width` wraps for consoles narrower than 10 columns.
- An unopened file ends `set_current_code_line` with its failure flag set,
  because `seekg(0)` on a closed `filebuf` fails.

The comment at src/include/Console.h:95 says the first line is numbered 0. The
code numbers lines from 1 (src/cpp/Console.cpp:88-89,105, src/include/Console.h:109).
The model follows the code.

## Model

| member | source | states |
|---|---|---|
| Widths.Short | src/cpp/Console.cpp:64 | `short(n)` is the value in [-32768, 32767] congruent to n modulo 65536, and n itself when it is in range |
| Widths.UShort | src/cpp/Console.cpp:89-105 | conversion to `unsigned short` is the value in [0, 65535] congruent to n modulo 65536, and n itself when it is in range |
| Widths.ShortInjective | src/cpp/Console.cpp:110-121 | two integers less than 65536 apart with the same `short` are equal |
| Widths.UShortSucc | src/cpp/Console.cpp:105 | incrementing the wrapped counter gives the wrapped count plus one |
| Colors.DecodeCode | src/include/Console.h:44-80 | decoding the number of an enum member gives back the member |
| Colors.CodeDecode | src/include/Console.h:44-80 | every number that decodes is the number of the member it decodes to |
| Colors.CodeRanges | src/include/Console.h:24-35 | the number is 0 exactly for `reset`; 30-37, 40-47, 90-97 and 100-107 hold exactly the normal foreground, normal background, bright foreground and bright background members; the last digit is the hue macro |
| Colors.BrightIsBasePlusBrighter | src/include/Console.h:27 | a bright member's number is its normal member's number plus BRIGHTER (60) |
| Colors.EnumValues | src/include/Console.h:44-73 | the explicit enum values: reset 0, black_fg 30, white_fg 37, green_bg 42, cyan_bg 46, white_bg 47, light_black_fg 90, light_white_fg 97, light_black_bg 100, light_white_bg 107 |
| Sgr.Digit | src/cpp/Console.cpp:58 | a digit value renders as a decimal digit character |
| Sgr.Decimal | src/cpp/Console.cpp:58 | the printed code is a non-empty string of decimal digits that denotes the code, with no leading zero |
| Sgr.ParseSequence | src/cpp/Console.cpp:58 | a terminal parses the sequence `set_color` sends back to the code that was sent |
| Sgr.SequenceInjective | src/cpp/Console.cpp:58 | different codes give different sequences, each at least four characters long |
| Screens.SgrLayers | src/cpp/Console.cpp:55-59 | SGR 0 resets both layers, 30-37 and 90-97 change only the foreground, 40-47 and 100-107 change only the background |
| Screens.ControlSelects | src/cpp/Console.cpp:55-59 | sending the sequence of an enum member selects exactly that member's rendition |
| Screens.PlaceAt | src/cpp/Console.cpp:66 | writing a run of cells from a position fills exactly the next columns of that row, each with its own cell, and leaves every other cell as it was |
| Screens.PlaceSnoc | src/cpp/Console.cpp:197-201 | writing one more cell updates only the next column |
| Screens.PrintOne | src/cpp/Console.cpp:66 | writing one character stores it, in the current rendition, at the cursor and advances the cursor one column |
| Screens.PlaceIdempotent | src/cpp/Console.cpp:193-201 | writing the same run twice at the same place leaves what writing it once does |
| Screens.PrintAt | src/cpp/Console.cpp:112 | printing a string puts its characters, in the current rendition, in the next columns of the cursor's row and leaves every other cell alone |
| Screens.Terminal.constructor | src/cpp/Console.cpp:11 | the output console the process is handed, in whatever state it is found: its view is exactly the given cursor, rendition and cells |
| Screens.Terminal.SetPosition | src/cpp/Console.cpp:77-80 | only the cursor moves |
| Screens.Terminal.Control | src/cpp/Console.cpp:58 | only the rendition changes, as the received SGR sequence says |
| Screens.Terminal.Write | src/cpp/Console.cpp:66 | the written text lands at the cursor in the current rendition and the cursor advances by its length |
| Screens.Terminal.Erase | src/cpp/Console.cpp:45-52 | clearing empties every cell and sends the cursor home |
| CodeFiles.LineEnd | src/cpp/Console.cpp:103 | the first line ends at the first '\n', or at the end of a text without one |
| CodeFiles.Records | src/cpp/Console.cpp:100-105 | a text always yields at least one `getline` record |
| CodeFiles.NewlinesSplit | src/cpp/Console.cpp:100-105 | the newlines of two joined texts are those of each |
| CodeFiles.NoNewlines | src/cpp/Console.cpp:103 | a text without '\n' has no newlines |
| CodeFiles.RecordCount | src/cpp/Console.cpp:100-105 | a text yields one record more than it has newlines |
| CodeFiles.RecordsJoin | src/cpp/Console.cpp:100-105 | joining the records with '\n' gives the text back |
| CodeFiles.RecordsHaveNoNewline | src/cpp/Console.cpp:103 | no record contains '\n' |
| CodeFiles.TrailingNewline | src/cpp/Console.cpp:100-105 | a text ending in '\n' yields an empty last record |
| CodeFiles.CodeFile.Open | src/cpp/Console.cpp:97 | an opened file is good and at its start |
| CodeFiles.CodeFile.Missing | src/cpp/Console.cpp:97 | a file that failed to open is not open, is at position 0 and has its failure flag set |
| CodeFiles.CodeFile.Clear | src/cpp/Console.cpp:85 | `clear()` makes the stream good without moving it |
| CodeFiles.CodeFile.SeekStart | src/cpp/Console.cpp:86 | `seekg(0)` clears end of file; a good stream on an open file moves to 0; a failed stream stays put; on a closed file it fails |
| CodeFiles.CodeFile.Get | src/cpp/Console.cpp:215 | `get()` returns the next character and stays good, or at end of file returns `(char)EOF` and sets both flags; a stream that is not good returns `(char)EOF` and fails; on a good stream it consumes exactly the first pending character |
| CodeFiles.CodeFile.GetLine | src/cpp/Console.cpp:102-103 | `getline` yields the first record of the unread text and stays good exactly when more records follow; after the last record the stream is at the end of the text with end of file set, and fails only when nothing was left to read; on a stream that is not good it yields "" and fails |
| Rendering.RenditionsFromReset | src/cpp/Console.cpp:65-72 | from a reset rendition, cyan_bg, green_bg and light_black_fg give the cursor, current-line and comment renditions; black_fg then a background gives the scroller rendition, with black_fg still in force |
| Rendering.TapeCellsDistinct | src/cpp/Console.cpp:64-69 | two `unsigned short` tape positions share a cell only if they are equal |
| Rendering.PaintedTape | src/cpp/Console.cpp:186-204 | after a repaint cell (5+i, 2) holds tape[i], in the cursor rendition exactly when i is the head position, and nothing else changes |
| Rendering.RepaintIdempotent | src/cpp/Console.cpp:186-204 | repainting an unchanged tape with an unchanged head changes nothing |
| Rendering.KeepsHighlight | src/cpp/Console.cpp:72 | an update that adds no cursor-rendition cell keeps the single highlight |
| Rendering.PlainWriteKeeps | src/cpp/Console.cpp:66 | a write in a rendition other than the cursor's adds no highlighted cell |
| Rendering.ReachedLine | src/cpp/Console.cpp:89-119 | line n is reached exactly when the file has at least n records; line 0 only after 65536 records |
| Rendering.ScanStepWrites | src/cpp/Console.cpp:107-127 | one scan pass rewrites the record of the previous or the target line whole in its row: green when it is the target, plain otherwise |
| Rendering.ScanStepFrame | src/cpp/Console.cpp:107-127 | one scan pass changes nothing outside the row of the record it reads, and nothing when that record is neither line |
| Rendering.ScanFromNext | src/cpp/Console.cpp:100-128 | one unfolding of the scan loop: a pass, then the rest of the scan with the updated flags |
| Rendering.ScanFromColored | src/cpp/Console.cpp:119-127 | the rest of the scan ends colored exactly when it was colored already or meets the target line |
| Rendering.ScanColored | src/cpp/Console.cpp:100-135 | the target line is highlighted exactly when the scan reaches it |
| Rendering.ScanStepPlain | src/cpp/Console.cpp:111-124 | one scan pass ends in the reset rendition and adds no cursor highlight |
| Rendering.ScanFromPlain | src/cpp/Console.cpp:100-128 | the rest of the scan ends in the reset rendition and adds no cursor highlight |
| Rendering.ScanPlain | src/cpp/Console.cpp:100-128 | the whole scan ends reset and highlights no tape cell |
| Rendering.ScanFromFrame | src/cpp/Console.cpp:107-127 | the rest of the scan leaves alone every row that none of its remaining writes targets |
| Rendering.ScanOtherRows | src/cpp/Console.cpp:110-121 | the scan changes only the rows of the previous current line and of the target line |
| Rendering.ScanFromRow | src/cpp/Console.cpp:107-127 | with fewer than 65536 lines, a line not yet handled that the rest of the scan reaches is written whole in row n+5 |
| Rendering.ScanRow | src/cpp/Console.cpp:107-127 | with fewer than 65536 lines, the reached target line is green in row n+5 and the reached previous line, when different, is plain in its row |
| Rendering.HighlightTwice | src/cpp/Console.cpp:82-142 | in a file with fewer than 65536 lines, highlighting line L1 and then a different line L2 leaves L1 plain and L2 green |
| Rendering.ListingSnoc | src/cpp/Console.cpp:213-224 | listing one more character is one more pass of the listing loop |
| Rendering.InCommentStep | src/cpp/Console.cpp:218-221 | a character is in a comment exactly when it is ';' or, not being '\n', follows a character in a comment |
| Rendering.InCommentPrefix | src/cpp/Console.cpp:213-224 | whether a character is in a comment depends only on the text up to it |
| Rendering.CommentedSnoc | src/cpp/Console.cpp:213-224 | the expected listing of a text is that of the text without its last character, plus that character's cell |
| Rendering.ListingStepAttr | src/cpp/Console.cpp:218-221 | after a listing pass the rendition is the comment one exactly when the character written is inside a comment |
| Rendering.ListingWrites | src/cpp/Console.cpp:213-224 | from a reset rendition, the listing writes exactly the expected cells from the cursor, advances the cursor by the text's length, and ends in the comment rendition exactly when the last character is in a comment |
| Rendering.ListingStepWrites | src/cpp/Console.cpp:215-223 | one listing pass extends the expected listing by the next character's cell and keeps the rendition rule |
| Rendering.ListingPlain | src/cpp/Console.cpp:213-224 | the listing highlights no tape cell |
| Rendering.ListingExample | src/cpp/Console.cpp:213-224 | on "MOV;comment\nHALT", MOV, the '\n' and HALT are plain and ";comment" is in the comment rendition |
| Rendering.BlockAt | src/cpp/Console.cpp:162-167 | a block fills exactly the 3x3 square from its column on rows 1-3, with blanks everywhere except the arrow in the centre |
| Rendering.ScrollersAt | src/cpp/Console.cpp:156-180 | drawing the scrollers puts in each of their cells the blank or the arrow in the scroller rendition, the right one over the left, and leaves every other cell |
| Rendering.ScrollersPlain | src/cpp/Console.cpp:156-180 | drawing the scrollers highlights no tape cell |
| Rendering.ScrollerBlocks | src/cpp/Console.cpp:156-180 | on a console at least 8 columns wide, columns 1-3 show the left block and columns width-4 to width-2 the right block, with '<' at (2,2) and '>' at (width-3,2), each in the rendition its flag selects |
| Console.DisplayWidth | src/cpp/Console.cpp:26 | `width - 10` as an `unsigned short`: exact for widths of at least 10; below that it wraps to a value of at least 32758 |
| Console.TuringConsole.constructor | src/cpp/Console.cpp:4-43 | the console starts with head 0, no current line, the display start at (5,2) and the wrapped display width; the `get_width`/`get_height` getters return the given size; the screen holds exactly the two disabled scrollers and the cursor is at (1,5) |
| Console.TuringConsole.SetColor | src/cpp/Console.cpp:55-59 | sending the colour selects it and changes nothing else |
| Console.TuringConsole.Clear | src/cpp/Console.cpp:45-52 | clearing empties the screen, sends the cursor home and keeps the invariant |
| Console.TuringConsole.SetTapeCursor | src/cpp/Console.cpp:61-75 | the old head cell is rewritten plain, then the new one in the cursor rendition; only those two cells change; the rendition ends reset; the head moves to `position` and the current line is unchanged; a position equal to the tape length shows the string's terminating NUL |
| Console.TuringConsole.WriteAt | src/cpp/Console.cpp:144-152 | only cell (5+q, 2) changes: it holds the symbol, in the cursor rendition exactly when q is the head; the head is unchanged and the rendition ends reset |
| Console.TuringConsole.DrawTapeScrollers | src/cpp/Console.cpp:154-184 | the screen gets both scroller blocks in the renditions the flags select; the rendition ends reset and the cursor at (1,5) |
| Console.TuringConsole.DrawBlock | src/cpp/Console.cpp:162-167 | the three writes of a block from column x, in the current rendition, leave the rendition unchanged and the cursor at (x+3, 3) |
| Console.TuringConsole.SetTapeValue | src/cpp/Console.cpp:186-204 | a tape that fits the display is repainted with only the head highlighted; a longer tape changes no cell; the cursor ends at (1,5) |
| Console.TuringConsole.SetCurrentCodeLine | src/cpp/Console.cpp:82-142 | the current line becomes `line` exactly when the file is open and the scan reaches it, and is otherwise unchanged; on an open file the screen is the scan's result and the stream ends good at 0; on a closed file the screen is unchanged and the stream ends at 0 with its failure flag set |
| Console.TuringConsole.ScanLines | src/cpp/Console.cpp:89-128 | the loop leaves the screen the scan specifies and reports whether the target was highlighted |
| Console.TuringConsole.ScanNext | src/cpp/Console.cpp:102-105 | one pass reads the next record, advances the wrapped line count and performs one scan step |
| Console.TuringConsole.RewriteLine | src/cpp/Console.cpp:107-127 | the two conditional rewrites of one pass, with the flags they set |
| Console.TuringConsole.PrintTuringCode | src/cpp/Console.cpp:206-236 | returns true exactly when the file is open; closed: only the cursor moves to (0,5) and the stream is unchanged; open: the pending text plus the EOF character is written from (0,5) with comments in the comment rendition, the rendition ends reset and the stream ends good at 0 |
| Console.TuringConsole.ListCode | src/cpp/Console.cpp:213-224 | the loop lists every pending character, with the EOF character last, and leaves the stream not good |
| Console.TuringConsole.ListNext | src/cpp/Console.cpp:215-223 | one listing pass consumes the next pending character and performs one listing step |
| Console.MissingProgram | src/cpp/Console.cpp:212-229 | a console built over a program file that failed to open: `print_turing_code` returns false, and the screen holds exactly the two disabled scrollers the constructor drew |
| Console.RepaintKeepsHighlight | src/cpp/Console.cpp:190-201 | on a console at least 10 columns wide, a repaint that fits the display keeps the head's cell the only highlighted one |

## Left out

- The Win32 calls (`GetStdHandle`, `GetConsoleScreenBufferInfo`, `SetConsoleCursorPosition`) are left out. The console's width and height are constructor parameters, and `set_position` is the terminal's cursor move.
- `system("cls")` / `system("clear")` runs an external program. The model treats it as an erase of every cell plus a cursor move home.
- The `dbg_*` macros and the text of the `std::cerr` messages are left out. Errors appear only as outcomes: the return value of `print_turing_code` and the unchanged current line.
- The non-WIN32 branch of the constructor leaves `width` and `tape_display_width` uninitialised, so it is not modelled. The model takes the WIN32 initialisation.
- The resize TODO and the oversized-tape TODO are unimplemented. The oversized-tape case is modelled as the no-op it is.
- A real terminal's handling of '\n', line wrapping and scrolling is left out. Every character, including '\n' and `(char)EOF`, is modelled as one cell written at the cursor, so the listing is a run of cells from (0,5).
- Console output is modelled only through its effect on the terminal state. Only SGR sequences are interpreted; renditions other than colours are not modelled.
- The stored `code_file` reference is kept as a field, but the methods use the stream they are passed, as the code does.
- The loops of `set_current_code_line` and `print_turing_code` are split into helper methods: `ScanLines`/`ScanNext`/`RewriteLine` and `ListCode`/`ListNext`. Each helper performs one part of the source function's body in order.
- Console.TuringConsole.SetTapeCursor: requires the old and new head positions to be at most the tape length, because `tape[i]` beyond the terminating NUL at index `size()` is undefined behaviour in the source.
- Console.TuringConsole.Valid: claims the single-highlight invariant only for consoles at least 10 columns wide. Narrower consoles wrap `tape_display_width`, and a repaint can then run past column 32767, where `short` coordinates wrap.
- Rendering.ScanRow: the row of a reached line is stated only for files with fewer than 65536 lines. Beyond that the wrapped line counter revisits line numbers and rows.
- Rendering.HighlightTwice: proved only for files with fewer than 65536 lines, for the same reason as Rendering.ScanRow. The code keeps the property for longer files, because the second scan stops at the larger of the two lines before the counter wraps.
- Console.TuringConsole.SetCurrentCodeLine: on an unopened file the stream ends with its failure flag set, not with all flags cleared, because `seekg(0)` fails on a closed file.
