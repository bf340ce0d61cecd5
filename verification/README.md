# Terminal core of Termony: a verified model

The project models three parts of the terminal application.

**The terminal emulator** (`terminal_context` in `terminal.cpp`). Bytes drive an escape-sequence
parser (`Parser`), a streaming UTF-8 decoder (`Utf8`), and a screen (`Display`, `Csi`, `Sgr`) with
cursor, margins, tab stops, modes and a bounded scrollback. `Terminal.TerminalContext` is the object
with its mutable fields and its loops over rows and cells; each method equals a function on snapshots
of the object, and the statements are about those functions and about runs of them
(`TerminalContext.ParseAll` carries them back to the object).

**The glyph atlas** (`AtlasPacking`, `AtlasRoom`, `AtlasBuild`, `AtlasApart`, `AtlasUniform`, `AtlasCache`,
`AtlasFrames`): shelf packing into a flat growing bitmap, the shelves a list of glyphs needs, the build as a
function and what it leaves, its loops over fonts and characters, and the frames that draw from the cache and
rebuild it when a character is missing.

**The clipboard queues** (`Pasteboard`) shared by the terminal worker and the UI, one critical section at a
time, joined to the OSC 52 parser in `Clipboard`.

`Commands`, `Controls` and `Colours` say from the bytes what every control sequence, control character and
rendition does to the screen. `Scrolling`, `Effects`, `Printing`, `Reports`, `Resync`, `Sizes`, `Sessions`,
`Weights`, `SgrSeams` and `Limits` hold further statements that relate several operations. `Sequences`, `Text` and `Cells` are shared vocabulary.

## Conventions

- A function of the value model returns `None` where the source would overflow an `int`, let `sscanf` read a
  number that is no `int`, index outside a vector, or let `std::stoi` throw. `Parser.Admissible` says exactly
  when that, or a broken invariant, happens.
- Integers are unbounded. The methods of `TerminalContext` make their sums with numbers from the stream, and
  the steps of the cursor, through `Text.Plus` and `Text.Minus`, which are defined on `int` results only.
- Bytes are characters below 256. The bit fields that the decoder combines with `|` do not overlap and are
  added.
- The character width is an uninterpreted function; a screen has at least two rows and two columns, and at
  most so many that a side plus a tab distance is an `int` (`Display.Side`).
- `-` is no parameter byte in ECMA-48 (section 5.4), but the source collects it and reads negative counts. The
  model does the same: a negative count makes the copy loops read behind or before the region.
- `scrolled`, `sent`, `copies` and `requests` record what left the terminal. The program does not read them.

## Where the code and its own description differ

The model follows the code.

- DECRST 25 is described as hiding the cursor and shows it (terminal.cpp:671-673).
- The answer to OSC 11 starts with 10 (terminal.cpp:994-1001).
- `MoveCursor` in origin mode adds the top margin to a row that is already absolute (terminal.cpp:294-310).
- DECSTBM accepts margins outside the screen; ED 1, TBC 0 and HTS index with a column that a full row does not have.
- DCH can leave the right half of a wide character in column 0, where the search of `InsertUtf8` does not stop.
- Counts are read as `int`s and added without a check, so DL and SU overflow on large ones.
- After the atlas height limit is hit, the next font continues at the width of the refused glyph on a full shelf.

## Model

| member | source | states |
|---|---|---|
| Parser.StepSafeIff | entry/src/main/cpp/terminal.cpp:873-1159 | from every state of the invariant, one byte keeps all `int` arithmetic defined, every access on the screen and the invariant standing if and only if it is admissible; admissibility is a guard on the state before the byte |
| Parser.RunSafeIff | entry/src/main/cpp/terminal.cpp:873-1159 | whole-machine safety, both directions and without hypotheses on the bytes: a stream of any length stays safe to its end exactly when each byte is admissible where it arrives |
| Sessions.SessionSafeIff | entry/src/main/cpp/terminal.cpp:174-205 | the same for sessions in which the window is resized between bytes: safe exactly when each byte is admissible and each size is one a screen can have |
| Sessions.BytesRun | entry/src/main/cpp/terminal.cpp:873-1159 | a session without resizes is the run of its bytes |
| Csi.ShortParametersFit | entry/src/main/cpp/terminal.cpp:340-341 | parameters of at most nine characters never make a handler overflow, on screens of up to 500 million rows and columns |
| Parser.PlainTextIsSafe | entry/src/main/cpp/terminal.cpp:1026-1155 | any stream without ESC, valid UTF-8 or not, is safe on every screen and leaves the parser idle |
| Display.FreshOk | entry/src/main/cpp/terminal.cpp:174-205 | a new terminal resized to a size a screen can have satisfies the screen invariant |
| Display.ResizeKeepsOk | entry/src/main/cpp/terminal.cpp:174-205 | resizing to a size a screen can have keeps the screen invariant |
| Terminal.TerminalContext.Parse | entry/src/main/cpp/terminal.cpp:873-1159 | under exactly the condition of StepSafeIff, and if a paste request it makes can be counted, the method on mutable fields overflows nowhere, does what Step says, keeps the invariant, and makes on the clipboard exactly the calls it logs |
| Parser.RequestCounted | entry/src/main/cpp/terminal.cpp:968-985 | a byte makes a paste request if and only if it completes the query command, and then one |
| Terminal.TerminalContext.ParseAll | entry/src/main/cpp/terminal.cpp:1190-1195 | a buffer of bytes is parsed to the end of the run the value model gives, so every statement about runs holds of the object |
| Terminal.TerminalContext.HandleCSI | entry/src/main/cpp/terminal.cpp:344-865 | the method does to the fields what the final byte does to the screen; what each final byte does is stated by the Commands and Colours rows |
| Commands.EraseDisplay | entry/src/main/cpp/terminal.cpp:415-443 | CSI p J blanks exactly the positions from the cursor on, up to and with the cursor, or all of them, and nothing for other texts p |
| Commands.EraseLine | entry/src/main/cpp/terminal.cpp:444-466 | CSI p K blanks exactly those of the cursor row |
| Commands.EraseChars | entry/src/main/cpp/terminal.cpp:521-526 | CSI p X blanks exactly as many cells as the count says, from the cursor on |
| Commands.InsertLines | entry/src/main/cpp/terminal.cpp:467-483 | place by place: in the region CSI p L moves the rows from the cursor on by the count, for counts of both signs, and goes to column 0; elsewhere it does nothing |
| Commands.DeleteLines | entry/src/main/cpp/terminal.cpp:484-500 | the same for CSI p M in the other direction |
| Commands.ScrollUp | entry/src/main/cpp/terminal.cpp:511-520 | CSI p S moves the whole region and leaves the cursor |
| Commands.DeleteChars | entry/src/main/cpp/terminal.cpp:501-510 | CSI p P moves the cells of the cursor row from the cursor on, blanks coming in |
| Commands.InsertChars | entry/src/main/cpp/terminal.cpp:834-847 | CSI p @ moves them the other way, spaces in the old styles coming in; a text that does not end in a digit is ignored |
| Commands.CursorUp | entry/src/main/cpp/terminal.cpp:348-357 | CSI p A: the resulting row and column for counts of both signs, with origin mode off and on |
| Commands.CursorDown | entry/src/main/cpp/terminal.cpp:358-367 | the same for CSI p B |
| Commands.CursorAcross | entry/src/main/cpp/terminal.cpp:368-375 | CSI p C and CSI p D move by at least one column and stop at the edge |
| Commands.CursorLine | entry/src/main/cpp/terminal.cpp:376-385 | CSI p E and CSI p F move to column 0 of a row that many rows away, within the screen, or in origin mode the region |
| Commands.CursorColumnRow | entry/src/main/cpp/terminal.cpp:386-391 | CSI p G moves to column p counted from 1, CSI p d (lines 539-544) to row p |
| Commands.CursorPosition | entry/src/main/cpp/terminal.cpp:392-414 | CSI p H moves to the row and column of two numbers counted from 1, with one number to column 0, without any to the corner; HVP (lines 545-557) takes two numbers only |
| Commands.SwitchModes | entry/src/main/cpp/terminal.cpp:569-684 | for every parameter list in any order: SM and RM switch insert mode for 4; DECSET and DECRST the width for 3, reverse video for 5, origin mode for 6, autowrap for 7, and both show the cursor for 25 |
| Commands.SetMargins | entry/src/main/cpp/terminal.cpp:799-833 | CSI a;b r makes a and b, counted from 1, the first and last row of the region if b is larger, and puts the cursor into column 0 of the first; with fewer numbers the screen supplies them |
| Commands.ClearTabs | entry/src/main/cpp/terminal.cpp:558-568 | CSI g clears the stop in the cursor column only, CSI 3 g all of them |
| Commands.DeviceAttributes | entry/src/main/cpp/terminal.cpp:527-538 | CSI p c sends the answer to the two queries it knows and changes nothing else |
| Commands.DeviceStatus | entry/src/main/cpp/terminal.cpp:786-798 | CSI 5 n and CSI 6 n send their answers and change nothing else |
| Commands.Unknown | entry/src/main/cpp/terminal.cpp:847-853 | all other final bytes leave the screen as it is |
| Commands.CountReads | entry/src/main/cpp/terminal.cpp:340-341 | a count is 1 by default, a decimal number as it is written, and its negative behind a minus sign |
| Commands.ShortIsAccepted | entry/src/main/cpp/terminal.cpp:344-857 | with parameters of at most nine characters all those sequences are accepted, but for the ones whose handlers look at more of the screen or the text |
| Controls.ControlCharacters | entry/src/main/cpp/terminal.cpp:1062-1082 | from bytes: CR goes to column 0, BS one column left and not beyond 0, LF to the next row or scrolls, HT to the next tab stop; the other control characters do nothing |
| Controls.EscapeSequences | entry/src/main/cpp/terminal.cpp:892-963 | ESC A to E, M, 7 and 8 from bytes: the resulting cursor, region or saved state; other two-byte sequences do nothing |
| Controls.SetsStop | entry/src/main/cpp/terminal.cpp:915-918 | HTS sets the stop in the cursor column only, and indexes past the row if and only if the row is full |
| Controls.FillsScreen | entry/src/main/cpp/terminal.cpp:934-942 | DECALN fills the screen with E in the default style |
| Controls.SavedCursorReturns | entry/src/main/cpp/terminal.cpp:943-955 | DECRC after DECSC gives back row and column, clamped to the screen as it is then, and style, through any bytes that do not save again |
| Controls.StepKeepsSaved | entry/src/main/cpp/terminal.cpp:873-1159 | no byte but that of DECSC changes what is saved |
| Limits.MarginsReachOff | entry/src/main/cpp/terminal.cpp:799-833 | DECSTBM compares the margins with each other only: for any two numbers, the rows that the loop of SU writes afterwards are all on the screen if and only if the margins are, or are no region |
| Limits.MarginsSafeIff | entry/src/main/cpp/terminal.cpp:799-833 | so DECSTBM with any two numbers keeps the invariant if and only if both are an `int` and the margins are on the screen or no region |
| Limits.FullRowFaults | entry/src/main/cpp/terminal.cpp:426-434 | ED 1 and TBC 0 are safe if and only if the cursor is not past the last column |
| Limits.FullRowReached | entry/src/main/cpp/terminal.cpp:229-264 | printing width-1 characters to the end of a row puts the cursor there |
| Limits.EmptyColourThrows | entry/src/main/cpp/terminal.cpp:737-741 | an SGR colour header with an empty type makes the number conversion throw, from every idle state |
| Limits.HugeColourThrows | entry/src/main/cpp/terminal.cpp:743-746 | a 256-colour index of any number of digits is safe if and only if it is below 2^31; beyond, the number conversion throws |
| Limits.HugeCountOverflows | entry/src/main/cpp/terminal.cpp:484-500 | DL with a count of any number of digits is safe if and only if the sum with the last row of the region is an `int` |
| Limits.NegativeCountReadsBelow | entry/src/main/cpp/terminal.cpp:467-483 | IL with a negative count is safe if and only if the cursor is outside the region or the rows it reads below the region exist |
| Limits.SearchStaysOnRow | entry/src/main/cpp/terminal.cpp:247-252 | in every reachable state the search for a broken wide character ends on the row, at a cell that is no right half |
| Limits.BackOffFailsIff | entry/src/main/cpp/terminal.cpp:249-251 | that search runs off a row if and only if all cells it can meet are right halves |
| Limits.WidePrintsTail | entry/src/main/cpp/terminal.cpp:254-263 | a wide character printed in column 0 leaves its right half in column 1 |
| Limits.DeleteStrandsTail | entry/src/main/cpp/terminal.cpp:501-510 | DCH on such a row brings the right half into column 0, which the invariant excludes; the search from the last column but one then runs off the row if and only if only right halves stood behind the first cell |
| Limits.SearchRunsOff | entry/src/main/cpp/terminal.cpp:247-252 | at every width: wide characters printed from right to left, the cursor in column 0 and DCH lead, from every idle state outside of origin and insert mode, to a row the search runs off |
| Terminal.TerminalContext.RemoveBrokenWideChar | entry/src/main/cpp/terminal.cpp:247-252 | the loop terminates with a column of the row whenever column 0 holds no right half |
| Utf8.DecodeEncodeAll | entry/src/main/cpp/terminal.cpp:1028-1155 | decoding inverts the encoder of section 3 of RFC 3629 on every list of code points from 0x80 to 0x10FFFF, surrogates included |
| Utf8.OnlyShortestFormsDecode | entry/src/main/cpp/terminal.cpp:1028-1155 | over every byte string, a completed code point has its own shortest encoding as the last bytes read, so no overlong form decodes |
| Utf8.FeedInRange | entry/src/main/cpp/terminal.cpp:1031-1061 | the accumulator stays in range, so no code point above 0x10FFFF is ever produced |
| Printing.RunInsertsEncoded | entry/src/main/cpp/terminal.cpp:1026-1155 | feeding the encodings of a list of code points to the machine calls InsertUtf8 on exactly that list |
| Printing.RunInsertsText | entry/src/main/cpp/terminal.cpp:1020-1155 | outside of insert mode, the bytes of any mix of one-byte and multi-byte characters insert exactly those characters |
| Printing.OnlyEncodedPointsPrint | entry/src/main/cpp/terminal.cpp:1084-1155 | whatever was received before, a multi-byte character the machine prints has just been received in its one shortest encoding |
| Terminal.TerminalContext.HandleLead | entry/src/main/cpp/terminal.cpp:1038-1061 | the lead-byte branches compute the decoder step |
| Terminal.TerminalContext.HandleContinuation | entry/src/main/cpp/terminal.cpp:1084-1155 | the continuation branches compute the decoder step and report a completed character |
| Printing.TextIsStored | entry/src/main/cpp/terminal.cpp:207-264 | from bytes to cells: after the UTF-8 text of any list of characters, of any widths, on a new terminal, all rows ever shown read back as the layout of the text (wide characters take two cells and are not split between rows) followed by blanks, the cursor counts its cells, and the scrollback holds them all up to 5000 rows |
| Printing.NarrowTextIsStored | entry/src/main/cpp/terminal.cpp:207-264 | with width-1 characters that layout is the characters themselves |
| Printing.PrintedIsStored | entry/src/main/cpp/terminal.cpp:207-264 | the same from calls of InsertUtf8, for any code points |
| Printing.InsertPrinted | entry/src/main/cpp/terminal.cpp:229-264 | one character of any width extends the laid-out text through wrapping and scrolling |
| Effects.InsertLands | entry/src/main/cpp/terminal.cpp:229-264 | a character of one or two columns that fits is stored at the cursor; one that does not is stored, with autowrap, at the start of the row a line feed leads to, the row it left keeping every cell, and without autowrap at the last column from which it fits and which holds no right half; no other cell changes |
| Controls.CharacterLands | entry/src/main/cpp/terminal.cpp:1020-1155 | from bytes: outside of insert mode the encoding of a character does that, and one of width 0 does nothing |
| Controls.InsertModeLands | entry/src/main/cpp/terminal.cpp:1028-1037 | in insert mode a printable byte does the same after room was made at the cursor |
| Controls.InsertModeShifts | entry/src/main/cpp/terminal.cpp:1028-1037 | so a width-1 byte is stored at the cursor and the rest of its row is kept one column further right, but for the last cell |
| Terminal.TerminalContext.InsertUtf8 | entry/src/main/cpp/terminal.cpp:229-264 | the method does to the fields what the printing function does to the screen; where that puts the character is stated by Effects.InsertLands |
| Terminal.TerminalContext.PushGap | entry/src/main/cpp/terminal.cpp:1031-1036 | the insert-mode loop shifts the rest of the row right by one |
| Scrolling.ForwardScrollsAgree | entry/src/main/cpp/terminal.cpp:207-216 | line feed at the bottom margin, SU 1 and DL 1 at the top margin leave the same grid and rows outside the margins alone |
| Scrolling.ReverseScrollsAgree | entry/src/main/cpp/terminal.cpp:919-927 | RI at the top margin leaves the grid of IL 1 there and rows outside the margins alone |
| Scrolling.InsertLineCountsAdd | entry/src/main/cpp/terminal.cpp:467-483 | IL m then IL n is IL m+n, for every two counts that are not negative |
| Scrolling.NegativeInsertOverwrites | entry/src/main/cpp/terminal.cpp:467-483 | a negative IL undoes whatever an IL before it did: the result is that of the negative one alone |
| Scrolling.DeleteLineCountsAdd | entry/src/main/cpp/terminal.cpp:484-500 | DL m then DL n is DL m+n, for every two counts that are not negative and whose sum overflows no row number |
| Scrolling.NegativeDeleteOverwrites | entry/src/main/cpp/terminal.cpp:484-500 | a negative DL likewise |
| Scrolling.DeleteUndoesInsertLines | entry/src/main/cpp/terminal.cpp:467-500 | DL n after IL n restores everything but the last n rows of the region, which are blank, for every count that overflows no row number |
| Scrolling.CharCountsAdd | entry/src/main/cpp/terminal.cpp:501-510 | DCH counts add on cells, ICH counts add on codes |
| Scrolling.InsertCountsAddIff | entry/src/main/cpp/terminal.cpp:838-846 | on whole cells, styles included, ICH m then ICH n is ICH m+n if and only if the styles at the opened places match |
| Scrolling.DeleteUndoesInsertChars | entry/src/main/cpp/terminal.cpp:838-846 | DCH n after ICH n restores the row but its last n cells, which are blank |
| Scrolling.ScrollConserves | entry/src/main/cpp/terminal.cpp:207-216 | a scroll turns scrollback and region into the same sequence plus one blank row |
| Scrolling.ScrollbackIsLog | entry/src/main/cpp/terminal.cpp:207-219 | over any run rows are only appended to the record of rows scrolled out, and the scrollback is its last 5000 rows in order |
| Scrolling.CursorNeverHidden | entry/src/main/cpp/terminal.cpp:671-673 | no byte stream hides a visible cursor, since DECRST 25 shows it; the comment beside it says otherwise |
| Terminal.TerminalContext.DropFirstRowIfOverflow | entry/src/main/cpp/terminal.cpp:207-223 | erase, insert, resize and trimming equal the one-row scroll of the value model |
| Terminal.TerminalContext.PushRowsDown | entry/src/main/cpp/terminal.cpp:473-480 | the bottom-up copy loop of IL is the slice shift, and for a negative count repeats the rows behind the region |
| Terminal.TerminalContext.PullRowsUp | entry/src/main/cpp/terminal.cpp:491-497 | the top-down copy loop of DL and SU is the slice shift, and for a negative count repeats the rows before the region |
| Terminal.TerminalContext.PushRegionDown | entry/src/main/cpp/terminal.cpp:921-926 | the copy loop of RI is the shift by one row |
| Terminal.TerminalContext.PullCellsLeft | entry/src/main/cpp/terminal.cpp:504-510 | the copy loop of DCH is the slice shift of the row, and for a negative count repeats the cells before the cursor |
| Terminal.TerminalContext.PushCellsRight | entry/src/main/cpp/terminal.cpp:840-846 | the copy loop of ICH is the insertion of spaces that keep their styles, for every count |
| Terminal.TerminalContext.ReverseIndex | entry/src/main/cpp/terminal.cpp:919-931 | RI scrolls at the top margin and moves up elsewhere |
| Effects.EraseBelowErases | entry/src/main/cpp/terminal.cpp:417-425 | ED 0 blanks exactly the positions from the cursor on in reading order |
| Effects.EraseAboveErases | entry/src/main/cpp/terminal.cpp:426-434 | ED 1 blanks exactly the positions up to and with the cursor |
| Effects.EraseAllErases | entry/src/main/cpp/terminal.cpp:435-440 | ED 2 blanks exactly everything |
| Effects.EraseLineErases | entry/src/main/cpp/terminal.cpp:444-463 | EL does the same within the cursor row |
| Effects.EraseCharsErases | entry/src/main/cpp/terminal.cpp:521-526 | ECH n, while its sum with the column is an `int`, blanks exactly the n cells from the cursor on |
| Effects.UpwardMotion | entry/src/main/cpp/terminal.cpp:348-357 | with origin mode off, and counts of both signs that overflow nothing, CUU moves up by its count, stopping at the top margin or, from above it, at the first row; a negative count moves down |
| Effects.DownwardMotion | entry/src/main/cpp/terminal.cpp:358-367 | with origin mode off, and counts of both signs that overflow nothing, CUD moves down by its count, stopping at the bottom margin or, from below it, at the last row; a negative count moves up |
| Effects.OriginMotionDrifts | entry/src/main/cpp/terminal.cpp:294-310 | in origin mode, from any row and for counts of both signs that overflow nothing, exactly when CUU and CUD move by their count: the margin is added to an absolute row |
| Effects.LineFeedMoves | entry/src/main/cpp/terminal.cpp:1064-1067 | away from the bottom margin a line feed only moves down, not past the last row |
| Terminal.TerminalContext.ClampCursor | entry/src/main/cpp/terminal.cpp:267-291 | the clamp into the screen, or into the region in origin mode |
| Terminal.TerminalContext.MoveCursor | entry/src/main/cpp/terminal.cpp:307-310 | clamp, then the relative move through the absolute one |
| Terminal.TerminalContext.EraseInRow | entry/src/main/cpp/terminal.cpp:420-422 | the cell loop blanks exactly its range |
| Terminal.TerminalContext.FillRows | entry/src/main/cpp/terminal.cpp:423-425 | the row loop blanks exactly its range |
| Terminal.TerminalContext.AlignmentPattern | entry/src/main/cpp/terminal.cpp:935-943 | DECALN fills the screen with E in the default style |
| Terminal.TerminalContext.SwitchModes | entry/src/main/cpp/terminal.cpp:569-684 | the parameter loops of SM, RM, DECSET and DECRST apply their parameters left to right |
| Terminal.TerminalContext.SetMargins | entry/src/main/cpp/terminal.cpp:799-833 | DECSTBM sets the margins it reads when the bottom one is larger, and homes the cursor |
| SgrSeams.SeamIsHarmlessIffWhole | entry/src/main/cpp/terminal.cpp:685-782 | for every accepted parameter list: cutting the list after it never changes the style, whatever follows, if and only if its last colour group is complete |
| SgrSeams.RenditionSplits | entry/src/main/cpp/terminal.cpp:685-782 | CSI a;b m does what CSI a m and CSI b m do, when a does not end inside a colour group |
| Sgr.ApplyConcat | entry/src/main/cpp/terminal.cpp:685-782 | the style after p and q in one list is the style after p and then q |
| Sgr.DefinedIffNumeric | entry/src/main/cpp/terminal.cpp:737-762 | the parameter loop throws or has no defined result exactly on lists with a part that, where it is read, is no `int`, whatever the style |
| Sgr.KeepsWeight | entry/src/main/cpp/terminal.cpp:697-724 | the font class stays regular or bold |
| Sgr.ApplyParts | entry/src/main/cpp/terminal.cpp:689-782 | the index loop with its look-ahead terminates, reads inside the list, and leaves the style of the parameter list; what the parameters do is stated by the Colours rows |
| Colours.OneParameter | entry/src/main/cpp/terminal.cpp:689-782 | from bytes and field by field: what one parameter of any text does to foreground, background, font class and blinking, and that it does nothing else |
| Colours.PaletteEntries | entry/src/main/cpp/terminal.cpp:727-736 | for every k below 8, CSI 3k m and CSI 9k m change the foreground only, to palette entries k and 8 + k, and 4k and 10k the background only |
| Colours.ResetAndInvert | entry/src/main/cpp/terminal.cpp:693-735 | CSI 0 m gives the default style, and CSI 7 m twice changes nothing |
| Colours.TableColour | entry/src/main/cpp/terminal.cpp:737-760 | CSI 38;5;n m and 48;5;n m take entry n of the table for the foreground and the background, for n of any length, and throw if and only if n is no `int` |
| Colours.DirectColour | entry/src/main/cpp/terminal.cpp:737-760 | CSI 38;2;r;g;b m and 48;2;r;g;b m take exactly these components in this order |
| Colours.RenditionShows | entry/src/main/cpp/terminal.cpp:229-264 | a character behind an accepted rendition lands where it would have landed, in the style the rendition left |
| Colours.ColourShows | entry/src/main/cpp/terminal.cpp:229-264 | end to end: CSI 3k m and a character leave a cell with palette entry k and the old background, and no other change of cells |
| Reports.RunSequence | entry/src/main/cpp/terminal.cpp:344-857 | a complete control sequence from the idle state is its final byte applied to its parameters, and is safe exactly when admissible |
| Reports.StatusReportsCursor | entry/src/main/cpp/terminal.cpp:791-798 | CSI 6 n sends ESC [ row ; col R and changes nothing else |
| Reports.ReportRestoresCursor | entry/src/main/cpp/terminal.cpp:392-401 | a report sent back as CUP restores row and column, from any state of a screen of that size, if and only if the reported column was on the screen |
| Reports.CopySequence | entry/src/main/cpp/terminal.cpp:968-985 | ESC ] 52 ; c ; b BEL makes exactly one Copy(b) and leaves the rest of the screen unchanged |
| Reports.BackgroundAnswersForeground | entry/src/main/cpp/terminal.cpp:994-1001 | the query OSC 11 is answered by a report that starts with 10 |
| Reports.ForegroundAnswers | entry/src/main/cpp/terminal.cpp:986-993 | the query OSC 10 is answered with black |
| Clipboard.RunStream | entry/src/main/cpp/terminal.cpp:968-1025 | a stream of plain text, escape, designator and control sequences, commands closed by BEL or ST, and device control strings copies the payloads of its OSC 52 commands, in order, and nothing else |
| Clipboard.ClipboardConserved | entry/src/main/cpp/terminal.cpp:968-985 | over any safe run and under every interleaving, copies delivered and queued are those submitted, in order, and requests granted and pending are those made |
| Clipboard.CopiesArriveInOrder | entry/src/main/cpp/terminal.cpp:968-985 | under every interleaving with the UI, what CheckCopy has returned is a prefix, in order, of the OSC 52 payloads of such a stream, and the rest is queued |
| Clipboard.SubmittedCalls | entry/src/main/cpp/napi_init.cpp:204-214 | the copies queued and the requests made under any interleaving are those the bytes alone cause |
| Terminal.TerminalContext.OscBell | entry/src/main/cpp/terminal.cpp:969-985 | the clipboard commands make the calls the value model logs |
| Resync.CancelResynchronises | entry/src/main/cpp/terminal.cpp:873-1159 | from every state one CAN byte leaves the parser idle with an unchanged screen |
| Resync.SuffixIndependentOfPrefix | entry/src/main/cpp/terminal.cpp:873-1159 | after CAN every suffix is parsed alike, whatever control prefix the parser had seen on the same screen |
| Resync.RunAlike | entry/src/main/cpp/terminal.cpp:873-1159 | states that differ only in a stale escape buffer or accumulator are told apart by no byte stream |
| Resync.SequenceBytesKeepScreen | entry/src/main/cpp/terminal.cpp:854-864 | parameters and string contents never touch the screen; a finished OSC touches only its reports |
| Text.SplitString | entry/src/main/cpp/terminal.cpp:95-106 | the search loop terminates and returns the pieces between successive leftmost delimiters |
| Text.JoinSplit | entry/src/main/cpp/terminal.cpp:95-106 | joining the pieces restores the text, for every non-empty delimiter |
| Text.SplitShape | entry/src/main/cpp/terminal.cpp:95-106 | for one character no piece contains it and there is one piece more than occurrences |
| Text.SplitConcat | entry/src/main/cpp/terminal.cpp:95-106 | splitting a c b is splitting a followed by splitting b |
| Text.ScanDec | entry/src/main/cpp/terminal.cpp:340-341 | reading a printed number gives it back |
| Text.ScanHead | entry/src/main/cpp/terminal.cpp:340-341 | a whole parameter text reads as its first parameter |
| Text.ScanFits | entry/src/main/cpp/terminal.cpp:340-341 | parameters of at most nine characters stay well inside a 32-bit int |
| Sizes.ResizeKeepsCommon | entry/src/main/cpp/terminal.cpp:174-199 | the rectangle and the tab stops common to both sizes survive a resize |
| Sizes.ResizeFills | entry/src/main/cpp/terminal.cpp:174-199 | outside of them cells are blank and stops stand every eight columns from the old width; margins are reset, the cursor is brought onto the screen, and nothing else changes |
| Sizes.NewIsBlank | entry/src/main/cpp/terminal.cpp:174-199 | a new terminal is blank, with the cursor in the corner and a stop every eight columns |
| Sizes.GrowShrinkRestores | entry/src/main/cpp/terminal.cpp:174-199 | growing and shrinking back restores grid and tab stops exactly |
| Sizes.TabLandsOnStop | entry/src/main/cpp/terminal.cpp:1073-1079 | HT goes to the least stop to the right, or to the last column when there is none |
| Sizes.TabFromFullRow | entry/src/main/cpp/terminal.cpp:1073-1079 | from past the last column HT returns to the last column |
| Terminal.TerminalContext.ResizeTo | entry/src/main/cpp/terminal.cpp:174-199 | the two resize loops and the clipping equal the resize of the value model |
| Terminal.TerminalContext.SkipToStop | entry/src/main/cpp/terminal.cpp:1073-1078 | the search loop of HT finds the next stop |
| Viewport.VisibleRows | entry/src/main/cpp/terminal.cpp:1561-1580 | the rows drawn are a contiguous window of scrollback and screen, with at least one line whatever the scroll offset |
| Viewport.LineShows | entry/src/main/cpp/terminal.cpp:1569-1580 | line i of the window shows screen row i - n, or the row of the scrollback that stands that far before the screen |
| Viewport.AtRest | entry/src/main/cpp/terminal.cpp:1561-1580 | not scrolled, the window of a full screen is the screen |
| Viewport.OneRowFurther | entry/src/main/cpp/terminal.cpp:1561-1567 | each line height of offset scrolls by one row, up to the limit |
| Pasteboard.CopiesConserved | entry/src/main/cpp/napi_init.cpp:155-208 | delivered and queued copies together are the copies submitted, in order, under every interleaving |
| Pasteboard.PastesConserved | entry/src/main/cpp/napi_init.cpp:182-225 | the same for pastes |
| Pasteboard.RequestsConserved | entry/src/main/cpp/napi_init.cpp:168-214 | true answers of CheckPaste and the pending count together are the requests made |
| Pasteboard.CopiesProgress | entry/src/main/cpp/napi_init.cpp:155-166 | without later copies, n calls of CheckCopy deliver the first n queued texts, or all of them |
| Pasteboard.PastesProgress | entry/src/main/cpp/napi_init.cpp:216-225 | the same for pastes and GetPaste |
| Pasteboard.RequestsProgress | entry/src/main/cpp/napi_init.cpp:168-180 | without later requests, n calls of CheckPaste grant n pending requests, or all of them |
| Pasteboard.EveryCopyArrives | entry/src/main/cpp/napi_init.cpp:155-208 | whatever happened before, all submitted texts are delivered, in order and once, after one more call of CheckCopy for each text still queued |
| Pasteboard.SharedPasteboard.CheckCopy | entry/src/main/cpp/napi_init.cpp:155-166 | answers and removes the oldest copy, or nothing |
| Pasteboard.SharedPasteboard.CheckPaste | entry/src/main/cpp/napi_init.cpp:168-180 | grants one pending request, or none |
| Pasteboard.SharedPasteboard.PushPaste | entry/src/main/cpp/napi_init.cpp:197-199 | appends to the paste queue |
| Pasteboard.SharedPasteboard.Copy | entry/src/main/cpp/napi_init.cpp:204-208 | appends to the copy queue |
| Pasteboard.SharedPasteboard.RequestPaste | entry/src/main/cpp/napi_init.cpp:210-214 | counts a request, while the count stays an `int` |
| Pasteboard.SharedPasteboard.GetPaste | entry/src/main/cpp/napi_init.cpp:216-225 | answers and removes the oldest paste, or the empty string |
| AtlasPacking.Bitmap.Place | entry/src/main/cpp/terminal.cpp:1425-1450 | as long as no glyph was refused, all stored glyphs stay inside the bitmap, pairwise disjoint, and read back as their source pixels through all later writes and growth; after a refusal the packing survives exactly while the new glyph clashes with none stored before |
| AtlasPacking.Bitmap.Reserve | entry/src/main/cpp/terminal.cpp:1425-1439 | the shelf choice and the growth of the bitmap, which keeps every pixel already there |
| AtlasPacking.Bitmap.Blit | entry/src/main/cpp/terminal.cpp:1441-1450 | the pixel loops write exactly the kept lines of the glyph and no other pixel |
| AtlasPacking.SlotIsFree | entry/src/main/cpp/terminal.cpp:1425-1439 | a new slot is inside the bitmap and clear of everything stored before |
| AtlasPacking.AfterRefusal | entry/src/main/cpp/terminal.cpp:1430-1435 | for every width, shelf and pen, and in terms of the refused width: exactly when the packing survives the glyph after a refused one |
| AtlasRoom.RefusalOverlaps | entry/src/main/cpp/terminal.cpp:1430-1435 | at every atlas width at which a shelf holds two glyphs, an atlas full of glyphs of one width refuses the next, and the one after it overwrites a stored one |
| AtlasRoom.UniformRoomIff | entry/src/main/cpp/terminal.cpp:1425-1439 | glyphs of one width have room exactly up to the stated capacity |
| AtlasCache.BuildFontAtlas | entry/src/main/cpp/terminal.cpp:1353-1501 | the font loops build exactly the cache of AtlasOf, store exactly the glyphs of PlacedOf and refuse exactly what these refuse; the packing stands if and only if after a refusal every font has only glyphs that spare what is stored; without a refusal it does, and every loaded code point that a font of a class has is cached with an entry of that glyph's size whose left and top corner is where its kept pixels are read in the bitmap, and whose right and bottom are its last column and row |
| AtlasCache.GlyphOfFirst | entry/src/main/cpp/terminal.cpp:1398-1412 | the glyph of a key is that of the first font of its class that has the code point |
| AtlasCache.ShownReadsAs | entry/src/main/cpp/terminal.cpp:1441-1464 | in a packing that stands, an entry that points at a stored glyph reads as that glyph |
| AtlasApart.ApartIff | entry/src/main/cpp/terminal.cpp:1425-1450 | the stored glyphs stay apart if and only if each font that starts on a full shelf, with the pen at a refused width, has only glyphs to store that spare the earlier ones: a condition on widths and places before its loop |
| AtlasApart.EntriesRightful | entry/src/main/cpp/terminal.cpp:1452-1464 | refusals or not, every entry is empty, or has the left and top corner, the size and the other corner of a stored glyph that a font of its class has for its code point, or of a regular missing character; right halves have the entry of the blank |
| AtlasUniform.RefusedBuildClashes | entry/src/main/cpp/terminal.cpp:1430-1435 | at every atlas width at which a shelf holds two glyphs, two fonts of one glyph width and more code points than fit end a build with clashing glyphs |
| AtlasCache.LoadCharacter | entry/src/main/cpp/terminal.cpp:1398-1464 | one turn of the character loop: skip, fall back to the missing-character glyph, refuse, or store, and then the entry has the place and size of the stored glyph |
| AtlasCache.Advance | entry/src/main/cpp/terminal.cpp:1398-1464 | one turn keeps earlier entries right and serves the new code point in every class |
| AtlasBuild.RefusedIff | entry/src/main/cpp/terminal.cpp:1425-1435 | a font refuses a glyph if and only if the widths of the glyphs it has to store need more shelves than the atlas can have |
| AtlasBuild.CompleteIff | entry/src/main/cpp/terminal.cpp:1398-1464 | with a regular last font, a build is complete if and only if the last font comes to its end, or all remaining code points have entries made elsewhere; it comes to its end if and only if its glyphs have room |
| AtlasBuild.RefusedIsMissing | entry/src/main/cpp/terminal.cpp:1433-1435 | the code point at which the last font stops is missing unless it is the blank or the right half |
| AtlasBuild.RoomMeansUnrefused | entry/src/main/cpp/terminal.cpp:1425-1439 | the shelf packing is monotone: with room for every glyph of a set of code points, no font refuses a glyph while any part of the set is loaded |
| AtlasBuild.NotdefCachedIff | entry/src/main/cpp/terminal.cpp:1402-1405 | with code point 0 loaded and a regular last font, the missing-character glyph of a class is cached if and only if some font of that class gets a slot for it at the head it starts from |
| Weights.OnlyRegularAndBold | entry/src/main/cpp/terminal.cpp:697-724 | over any session from a new terminal, every cell of screen and scrollback is regular or bold |
| AtlasFrames.DrawCells | entry/src/main/cpp/terminal.cpp:1583-1598 | each cell is drawn as the entry of its own class, without one as the regular entry, and without either as the missing-character glyph of its class; exactly the code points without either are added and ask for a rebuild, and the assertion fails exactly where the last one is not cached |
| AtlasFrames.BuildAndDraw | entry/src/main/cpp/terminal.cpp:1353-1501 | end to end with Draw (lines 1583-1598): after a build without refusal and with a regular last font, a frame of loaded code points is drawn without a rebuild, and each cell shows, pixel by pixel, the glyph of the first font of its class that has it, else of the first regular one, else the regular missing character; right halves show the blank |
| AtlasFrames.DrawableIff | entry/src/main/cpp/terminal.cpp:1595-1597 | with 0 loaded and a regular last font, every row of regular and bold cells can be drawn if and only if both classes have a font that gets a slot for its missing-character glyph |
| AtlasFrames.TerminalDrawable | entry/src/main/cpp/terminal.cpp:1583-1598 | under that condition, whatever bytes and sizes a terminal has received, no row of screen or scrollback fails the assertion |
| AtlasFrames.RenderFrames | entry/src/main/cpp/terminal.cpp:1855-1892 | the renderer, two frames before the first check and one frame before each later one, draws and rebuilds the atlas from the whole load set as RendererRebuilds counts, and fails the assertion exactly where AllDrawable says |
| AtlasFrames.MissedIsNew | entry/src/main/cpp/terminal.cpp:1586-1593 | with room for everything that can come up, only code points outside the load set miss |
| AtlasFrames.RebuildsBounded | entry/src/main/cpp/terminal.cpp:1889-1891 | with room for the glyphs of all code points that can come up, the renderer rebuilds at most once for each of them not loaded at the start, over any number of frames |
| AtlasFrames.FramesDrawable | entry/src/main/cpp/terminal.cpp:1583-1598 | and no frame of regular and bold cells fails the assertion |
| AtlasFrames.SteadyRebuilds | entry/src/main/cpp/terminal.cpp:1583-1598 | for frames of cells that are loaded or resolve, the rebuilds are the checks after which something missed the first cache, and the assertion holds if and only if it does for each frame and that cache |
| AtlasFrames.QuietIffComplete | entry/src/main/cpp/terminal.cpp:1889-1891 | all frames of loaded code points are drawn without a rebuild or a failed assertion if and only if the build of the load set is complete |
| AtlasFrames.RefusedNeverSettles | entry/src/main/cpp/terminal.cpp:1433-1435 | a renderer that shows the code point refused by a regular last font, among any cells that are loaded or resolve, rebuilds at every check as long as it can draw the frames; it can if the cells are regular, or regular and bold with a fallback, and fails at once if the refused glyph is the missing-character glyph |
| AtlasFrames.UniformCompleteIff | entry/src/main/cpp/terminal.cpp:1425-1435 | for a font of one glyph width, at every atlas width, a build is complete exactly up to the capacity; beyond, a renderer that shows the code point at which the atlas is full, among regular cells that are loaded or resolve, never fails and rebuilds at every check |
| AtlasFrames.DefaultAtlasOverflows | entry/src/main/cpp/terminal.cpp:1303 | an instance at the default texture width |

## Left out

- Sizes.TabLandsOnStop: says where the column goes; in origin mode the row is also clamped into the region.
- What follows an overflow or a number `sscanf` cannot represent: the language leaves it undefined, the model stops.
- Screens smaller than two by two: the source asserts a region of at least two rows, and a wide character needs two columns.
- The 256-colour table and the palette: colours are named by index.
- `ResizeWidth`, `ioctl` and `fork`: calls to the platform.
- `WriteFull` retries: only the bytes sent are recorded.
- The poll and read loop of `Worker`, its restart message and thread creation: process plumbing. `Worker`'s loop over one buffer is modelled.
- Locking: every method and every clipboard section is one atomic step.
- Branches marked TODO (mouse, bracketed paste, keypad, underline and others): they change nothing.
- Drawing: vertices, colours, blinking, the cursor block and texture coordinates; of `Draw` the row choice and the glyph lookup are modelled.
- Floating-point rounding of the scroll offset: it is a real number.
- FreeType: glyphs are an arbitrary function of font and code point, no wider than the atlas; bearings are not kept.
- UTF-8 conversion of clipboard strings by N-API.
- The packaging tools under build-hnp, the ArkTS user interface and the build scripts.
