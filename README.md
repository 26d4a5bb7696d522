# kilo, modelled in Dafny

This project models the deterministic core of kilo, a small terminal text editor written in Go (`main.go`). It then proves properties of that model. The model covers:

- **Key decoder.** `editorReadKey` turns the units read from the terminal into one key: leading NULs are skipped, and `ESC [ d ~`, `ESC [ X` and `ESC O X` sequences are decoded.
- **Rows.** Each row holds its content, its render (tabs expanded to 8-column stops, followed by NUL padding) and one highlight tag per rendered character. Two mappings convert between content columns and render columns.
- **Edits.** There are row-level operations (insert row, insert char, append string, delete char, delete row) and cursor-level edits (`editorInsertChar`, `editorInsertNewline`, `editorDelChar`). `editorRowsToString` turns the rows into the text that is saved.
- **Viewport.** Cursor movement, PageUp and PageDown, and the scroll rule that keeps the cursor inside the window.
- **Incremental search.** `editorOnInputFind` does a wrapping, directional scan. It saves and restores the highlights of the matched row. `editorFind` and the edit loop of `editorPrompt` are modelled too.
- **Frame builders.** The text rows with their colour escapes, the status bar, the message bar and the cursor-placement escape.
- **Quit counter.** How many consecutive Ctrl-Q presses it takes to leave an editor with unsaved changes.

The module layout follows the source:

- `Keys`: `keys.dfy`.
- `Syntax`: `syntax.dfy`.
- `RenderRow`: `render_row.dfy`, which covers rendering and the coordinate mapping.
- `Buffer`: `buffer.dfy`, with the pure row operations and serialisation.
- `Document`: `document.dfy`, with the edits on the lines and the cursor, specified against the buffer's text.
- `Viewport`: `viewport.dfy`.
- `Search`: `search.dfy`.
- `Paint` and `Screen`: `paint.dfy` and `screen.dfy`, with the drawn output and what a terminal shows of it.
- `Util`: `util.dfy`.
- `Editor`: `editor.dfy`.

`Editor.Editor` is a class. Its fields are the editor configuration (main.go:84-110) together with the search globals (main.go:620-627). Its methods update those fields in place, as the Go functions update the globals. Where the Findings below show the source to be wrong, the class runs the corrected program: `InsertRow` renders the inserted row, `Save` writes only the buffer's numrows lines, and the refresh draws the visible span of each row with the tags of the same columns. The invariant that every row is rendered holds only for this corrected program. Each method is proved against the pure functions of the other modules:
- the cursor-level edits against `Document.InsertChar`, `Document.Newline` and `Document.DelChar`;
- movement against `Viewport.CursorAfterMove`;
- the search against `Search.FirstHit`;
- the refresh against `Screen`'s builders.

The quit counter is a separate global (main.go:129), not a field of the configuration. `ProcessKeypress` therefore takes its value as a parameter and returns the new value.

The terminal, the file system and the clock are kept outside the model:
- a key read is a finite sequence of input units, and the end of the sequence stands for a failed or timed-out read;
- the saved file is the text `Save` returns;
- the age of the status message is a boolean `recent`, meaning younger than `KILO_MESSAGE_TIMEOUT`;
- the frame written to the terminal is the string `RefreshScreen` returns.

Characters are ASCII throughout. Go's byte lengths and rune indices then agree, and `unicode.IsDigit` and `unicode.IsControl` reduce to their ASCII ranges.

## Model

| member | source | states |
|---|---|---|
| Util.Decimal | main.go:611 | The decimal digits of a natural number, most significant first, with no leading zero, as `%d` prints them |
| Util.DecimalRoundTrip | main.go:611 | A property of the `%d` digits: they determine the number, since reading them back gives it again |
| Keys.CtrlKey | main.go:62-64 | Ctrl plus a letter of either case is the letter's position in the alphabet; every result lies in 0..31, the low five bits |
| Keys.SkipNuls | main.go:201-210 | Returns the input with exactly its leading NULs removed; the result is empty or starts with a non-NUL unit |
| Keys.ReadKey | main.go:195-283 | Decodes one key; there is no key exactly when the input holds nothing but NULs |
| Keys.SkipNulsPrefix | main.go:201-210 | Any number of leading NULs is skipped, and nothing after them |
| Keys.ReadEscape | main.go:213-224 | After any run of NULs, an ESC passes the rest of the input to the escape decoder |
| Keys.DecodeTilde | main.go:226-252 | `ESC [ d ~` for d = 1,3,4,5,6,7,8 decodes to Home, Del, End, PageUp, PageDown, Home, End |
| Keys.DecodeBracket | main.go:253-269 | `ESC [ A/B/C/D/H/F` decodes to Up, Down, Right, Left, Home, End |
| Keys.DecodeO | main.go:270-278 | `ESC O H` and `ESC O F` decode to Home and End |
| Keys.DecodeEscapeIsEscExactly | main.go:213-280 | An ESC decodes to ESC itself exactly when what follows is not one of the recognised sequences, stated independently of the decoder; this includes a tail of fewer than two units |
| Keys.DecodePlain | main.go:281-283 | A unit other than NUL and ESC is returned unchanged, after any run of NULs |
| Syntax.SyntaxToColor | main.go:350-356 | HL_NUMBER gives red, HL_MATCH gives blue, and every other tag gives white; each holds in both directions |
| Syntax.HighlightsOf | main.go:358-368 | One tag per rendered character: HL_NUMBER exactly on decimal digits, HL_NORMAL exactly elsewhere |
| Syntax.UpdateSyntax | main.go:358-368 | The fill loop produces exactly those tags |
| RenderRow.TabWidth | main.go:426-431 | A tab started at column c covers 1 to 8 columns and ends on the next multiple of 8, with no tab stop in between |
| RenderRow.ExpandWidth | main.go:421-437 | The expanded text is no shorter than the content and at most 7 columns longer per tab, so it fits the allocated render |
| RenderRow.RenderOf | main.go:421-437 | The render is `len(content) + 7*tabs + 1` long: the expanded content followed by NULs |
| RenderRow.UpdateRow | main.go:412-440 | The whole routine (count tabs, allocate, copy with expansion, closing NUL, tags) yields the rendered row of its content |
| RenderRow.CountTabs | main.go:413-419 | Counts exactly the tabs of the content |
| RenderRow.CopyExpanded | main.go:423-436 | Writes the expanded content at the start of the render, leaves the rest NUL, and returns the index after it |
| RenderRow.PadTab | main.go:426-431 | Writes spaces from the start index up to the next multiple of 8, at least one, and touches nothing else |
| RenderRow.RowCxToRx | main.go:376-389 | The accumulating loop computes the render column of content column cx |
| RenderRow.RxToCx | main.go:391-409 | Gives the first content column whose character ends past rx, or the content length when there is none |
| RenderRow.RowRxToCx | main.go:391-409 | The loop with its early return computes that column |
| RenderRow.TabStep | main.go:384-386 | The mapping loops' tab arithmetic `(7 - rx % 8) + 1` and the render fill loop (main.go:429) agree on where a tab ends |
| RenderRow.CxToRxWithoutTabs | main.go:376-389 | With no tab before cx, the render column equals cx |
| RenderRow.LeadingTab | main.go:376-389 | A tab in the first column ends at render column 8 |
| RenderRow.RenderWithoutTabs | main.go:412-440 | A row without tabs renders as its content followed by a single NUL |
| RenderRow.RxToCxOfCxToRx | main.go:376-409 | Mapping a content column to render and back gives the same column, for every 0 <= cx <= len(content) |
| RenderRow.RxToCxPastEnd | main.go:391-409 | The reverse mapping returns the content length exactly when rx is at or past the expanded width or the row is empty; in particular for every rx at or past the render length |
| RenderRow.RenderedWidthMono | main.go:376-389 | Every content character moves the render column strictly forward |
| RenderRow.RenderPlacement | main.go:412-440 | The render shows each non-tab character at its computed render column, and each tab as spaces up to the next tab stop |
| Buffer.InsertIndex | main.go:457-460 | An insertion index outside 0..len is replaced by len |
| Buffer.InsertAt | main.go:456-465 | The content gains c at the clamped index; everything before it and after it is kept |
| Buffer.DeleteAt | main.go:475-485 | The content loses exactly the character at the index |
| Buffer.DeleteAfterInsert | main.go:456-485 | Inserting at `at` and then deleting at `at` restores the content, for 0 <= at <= len |
| Buffer.InsertAfterDelete | main.go:456-485 | Deleting a character and inserting it again at its index restores the content |
| Buffer.InsertRowAsWritten | main.go:443-453 | As written: the new row goes into the slice at `at`, and the row that gets rendered is the one at index numrows; the inserted row is rendered only when at == numrows |
| Buffer.InsertRowRendered | main.go:442-453 | The insertion the function's comment describes: the new row is rendered and the slice's contents gain exactly that line at `at` |
| Buffer.InsertRowRenderedKeepsRendering | main.go:442-453 | That insertion keeps every row's render equal to the render of its content |
| Buffer.InsertRowAsWrittenLeavesRowUnrendered | main.go:448-450 | As written, splitting the first of two rendered rows leaves the split-off row with an empty render |
| Buffer.DeleteRowKeepLength | main.go:488-496 | The discarded `slices.Delete` leaves a slice of the same length |
| Buffer.DeleteRowShifts | main.go:493 | After the delete, the rows before `at` stay in place, the rows after it move down one place, and the last element stays where it was |
| Buffer.DeleteRowTexts | main.go:488-496 | The first numrows - 1 lines after the delete are the old first numrows lines without line `at` |
| Buffer.RowsToString | main.go:563-570 | As written: every row of the slice, including rows past numrows, each followed by a newline |
| Buffer.SplitJoinLines | main.go:563-570 | Splitting the joined text at its newlines gives the lines again when none contains a newline |
| Buffer.ScanJoinLines | main.go:580-583 | Reading the joined text back as editorOpen does, with `bufio.Scanner`'s line splitting, gives the lines again when none contains a newline or ends in a carriage return |
| Buffer.ScanDropsTrailingCR | main.go:580-583 | A saved line ending in a carriage return is read back without it |
| Buffer.BufferTextRoundTrip | main.go:563-570 | The text of the buffer's first numrows rows splits at its newlines into exactly those lines |
| Buffer.MergedRowsSerialiseStaleLine | main.go:563-570 | After joining two lines, the text that editorRowsToString produces still carries the stale second line |
| Document.InsertChar | main.go:502-509 | The typed character lands under the old cursor column on the cursor's line, which grows by one (past the end, a line is added), and the cursor moves one column right |
| Document.Newline | main.go:512-530 | Adds exactly one line and moves the cursor to column 0 of the next line |
| Document.DelChar | main.go:532-556 | Does nothing on the line past the end or at the top-left corner; otherwise the cursor's line loses one character, or at column 0 the buffer loses one line; the cursor always stays valid |
| Document.InsertCharText | main.go:502-509 | In the buffer's text, typing inserts the character at the cursor's offset and advances the offset by one; on the line past the end it appends the line `c` |
| Document.NewlineText | main.go:512-530 | Enter inserts a newline into the text at the cursor's offset and advances the offset by one, at column 0 and in the middle of a line alike |
| Document.DelCharText | main.go:532-556 | Backspace removes the one character before the cursor's offset from the text, which is a newline at column 0, and moves the offset back by one |
| Document.NewlineThenDelChar | main.go:512-556 | Enter and then Backspace restore the lines and the cursor, on every line of the buffer |
| Document.InsertCharThenDelChar | main.go:502-556 | Typing a character and then Backspace restore the lines and the cursor |
| Viewport.CursorAfterMove | main.go:960-1011 | After any key the cursor is on a line or the line past the end, and within that line (length 0 past the end); Up and Down move one line within the bounds and keep cx when it fits the new line, else snap it to that line's length; other keys only snap cx |
| Viewport.MoveAtOrigin | main.go:968-981 | Up on the first line changes nothing, whatever the column; Left at (0, 0) changes nothing |
| Viewport.LeftWrapsToLineAbove | main.go:973-981 | Left at column 0 of any line below the first goes to the end of the line above |
| Viewport.RightWithinLine | main.go:987-990 | Right before the end of a line moves one column right on the same line |
| Viewport.RightWrapsToNextLine | main.go:987-995 | Right at the end of a non-empty line goes to (0, cy + 1) |
| Viewport.LeftUndoesRight | main.go:973-995 | Left undoes every Right that moved the cursor |
| Viewport.RightUndoesLeft | main.go:973-995 | Right undoes Left, except when Left went up to an empty line |
| Viewport.MoveTimes | main.go:1067-1074 | Repeating a key leaves the cursor valid |
| Viewport.UpTimes | main.go:1067-1074 | n presses of Up move n lines up and stop at line 0 |
| Viewport.DownTimes | main.go:1067-1074 | n presses of Down move n lines down and stop at the line past the end |
| Viewport.PageMove | main.go:1055-1074 | PageUp and PageDown leave the cursor valid |
| Viewport.PageTargets | main.go:1055-1074 | PageUp ends a screenful above the window's top line, and PageDown a screenful below its bottom line, both clamped to the buffer |
| Viewport.ScrollOffset | main.go:787-805 | The new offset shows the position; it is unchanged when the position was already visible; no other offset that shows it is closer to the old one |
| Viewport.ScrollToTop | main.go:787-790 | A window starting past the cursor moves so that the cursor is on its first line, which is how a match reaches the top after main.go:680 |
| Search.IndexOf | main.go:674 | `strings.Index`: -1 exactly when the query occurs nowhere, otherwise its first occurrence |
| Search.NextRowIsProbe | main.go:663-671 | The loop's step with wraparound (-1 to numrows - 1, numrows to 0) visits the closed-form row `(start ± k) mod numrows` at step k |
| Search.ProbeCovers | main.go:663-671 | Any numrows consecutive steps visit every row of the buffer |
| Search.FirstHit | main.go:662-694 | A hit is within the scanned steps, and the row visited there contains the query |
| Search.FirstHitIsFirst | main.go:662-694 | No step before the hit, and no scanned step at all when there is no hit, visits a row containing the query |
| Search.NoHitMeansAbsent | main.go:663-694 | A scan that finds nothing means that no row of the buffer contains the query |
| Search.OnlyMatchIsFound | main.go:663-671 | When only one row holds the query, the scan finds it from every start, including itself after a full turn |
| Search.FirstHitSameRenders | main.go:673-691 | The scan reads only the renders, so re-tagging a row does not change what it finds |
| Search.ScanFrom | main.go:640-658 | The arrows keep the previous match, Right and Down forward, Left and Up backward; other keys restart from -1; with no previous match the scan goes forward |
| Search.ScanFromStarts | main.go:640-662 | From a previous match on a row or -1, every key gives a valid start for the scan |
| Search.Marked | main.go:689-691 | Exactly the tags of the matched span become HL_MATCH; all others are kept |
| Search.PromptStep | main.go:931-951 | The prompt is cancelled exactly on ESC and submitted exactly on Enter with non-empty input; Backspace, Del and Ctrl-H drop exactly the last character of a non-empty input; a printable ASCII key is appended; every other key leaves the input unchanged |
| Search.TypeThenErase | main.go:931-951 | Typing a printable character and then Backspace restores the input |
| Search.PromptRunPrintable | main.go:926-956 | The input only ever holds printable text, and a submitted query is never empty |
| Search.PromptRunEndsAtEsc | main.go:935-940 | An ESC among the keys always ends the prompt |
| Paint.ShownColorPieces | main.go:883-905 | A terminal reading the drawn row shows every character in order, in the colour of its tag |
| Paint.ColorAfterColorPieces | main.go:883-905 | After the row, the colour in force is that of its last character |
| Paint.ColorPiecesMinimal | main.go:883-905 | The draw loop never writes an escape that leaves the colour unchanged |
| Paint.EmitColorPiecesStep | main.go:890-904 | Each character is written as the escape for its colour (only when that colour changes) followed by the character |
| Paint.PlainRun | main.go:891-896 | A run of untagged text is written as it is, without any escape |
| Screen.WelcomeLine | main.go:855-869 | The welcome line fits the screen; when the message fits, it is centred to within one column, and otherwise it is cut to the width |
| Screen.DrawnAsWritten | main.go:876-906 | As written, the drawn span is never wider than the screen |
| Screen.VisibleSpan | main.go:876-888 | The visible span of the render lies inside the render and is at most the screen width |
| Screen.DrawnIsWindow | main.go:876-906 | Screen column j of a text row shows render column colOffset + j in the colour of its tag, for every column inside the window |
| Screen.CursorOverItsCharacter | main.go:876-906 | When the cursor's render column is inside the window, the character under the cursor is drawn at the cursor's screen column |
| Screen.DrawnAsWrittenMiscolours | main.go:886-891 | As written, with one column of scroll, a letter after digits is drawn red; every character is still drawn, and only the NUL padding after the row is left out |
| Screen.DrawnAsWrittenBlanks | main.go:886-888 | As written, with six columns of scroll, a row whose last four characters are inside the window is drawn empty |
| Screen.DrawChar | main.go:891-904 | Writes the escape for the tag's colour only when it differs from the colour in force, then the character; the new colour is the tag's |
| Screen.DrawSpan | main.go:883-905 | The character loop writes exactly the pieces `Paint.ColorPieces` gives for the span: an escape only where the colour in force changes, then the character |
| Screen.DrawRow | main.go:875-907 | The character loop writes the coloured visible span of the row, then resets to the default colour |
| Screen.DrawLine | main.go:850-915 | Each screen line is a text row, a tilde past the end, or the welcome line a third of the way down an empty buffer |
| Screen.DrawRows | main.go:848-917 | The loop writes exactly screenrows lines, each followed by the clear-line escape and CRLF |
| Screen.StatusBar | main.go:739-760 | The bar's visible width always equals the screen width; it starts with the left status cut to the screen, and ends with the right status when that fits, else with spaces |
| Screen.DrawStatusBar | main.go:726-766 | The space-padding loop writes exactly that bar between the invert and reset escapes |
| Screen.MessageBar | main.go:768-777 | After the clear-line escape it shows a prefix of the message that fits the screen; it is non-empty exactly when the message is recent, non-empty and there is a column; a fitting recent message is shown whole |
| Editor.ModifiedQuit | main.go:1020-1029 | On a modified buffer with q presses left, exactly the first q consecutive Ctrl-Q presses keep the editor running |
| Editor.QuitPresses | main.go:1020-1029 | Starting from KILO_QUIT_TIMES (main.go:25), a modified buffer quits on the fourth Ctrl-Q and a clean buffer on the first |
| Editor.KeyEffect | main.go:1017-1094 | The keys other than Ctrl-Q/S/F keep the cursor valid, and only Enter, Backspace, Ctrl-H, Del and the ASCII keys with no binding of their own (which are typed) change the lines |
| Editor.EraseEffect | main.go:1044-1052 | Backspace and Ctrl-H delete before the cursor, and Del deletes before the cursor after one move right |
| Editor.TypeThenBackspace | main.go:1046-1093 | As keys: an ASCII key with no binding and then Backspace leave lines and cursor as they were |
| Editor.EnterThenBackspace | main.go:1018-1054 | As keys: Enter and then Backspace leave lines and cursor as they were |
| Editor.ScrollAxis | main.go:787-805 | The two adjustments of one axis compute the minimal-move offset |
| Editor.MovedCursor | main.go:960-1011 | The switch over the arrow keys and the snap to the line length compute the move on the buffer's lines |
| Editor.CopyTags | main.go:684-687 | The copy loop saves exactly the row's tags |
| Editor.RestoreTags | main.go:631-635 | The restore loop puts back the saved tag at every rendered position |
| Editor.ScanDirection | main.go:640-658 | The branches on the key set the start and direction of the scan |
| Editor.ScanLoop | main.go:662-694 | At most one probe per slice element, stopping at the first row in wrap order whose render contains the query, and returning that row and the index of the query in it; no hit exactly when the scan finds none |
| Editor.PaintFrame | main.go:813-830 | The frame is hide-cursor, home, the text rows, the status and message bars, the cursor position and show-cursor, in that order |
| Editor.Editor.constructor | main.go:1106-1112 | The empty editor: two screen rows reserved for the bars, a clean and unnamed buffer, the cursor at (0, 0), both offsets and rx at 0, no search in progress, and the help text as the status message |
| Editor.Editor.InsertRow | main.go:443-453 | An index outside 0..numrows is ignored; otherwise the buffer gains the line at that index, every row stays rendered, and dirty is set |
| Editor.Editor.RowInsertChar | main.go:456-465 | The row's content gains the character at the clamped index, the row is rendered again, and dirty is set |
| Editor.Editor.RowAppendString | main.go:468-472 | The row's content gains the string at its end, the row is rendered again, and dirty is set |
| Editor.Editor.RowDelChar | main.go:475-485 | An index outside the row changes nothing; otherwise the character goes, the row is rendered again, and dirty is set |
| Editor.Editor.DelRow | main.go:488-496 | An index outside the buffer is ignored; otherwise the slice keeps its length, the buffer loses exactly that line, and dirty is set |
| Editor.Editor.InsertChar | main.go:502-509 | The buffer's lines and cursor become Document.InsertChar of the old ones, and dirty is set |
| Editor.Editor.TypeAt | main.go:507-508 | The character goes into the cursor's line, and the cursor moves right |
| Editor.Editor.InsertNewline | main.go:512-530 | The lines and cursor become Document.Newline of the old ones, and dirty is set |
| Editor.Editor.SplitRow | main.go:516-526 | The line at the cursor is replaced by its parts before and after the cursor |
| Editor.Editor.DelChar | main.go:532-556 | The lines and cursor become Document.DelChar of the old ones; the rows are untouched exactly in the two no-op cases, and dirty is set otherwise |
| Editor.Editor.EraseBefore | main.go:543-547 | The character before the cursor goes, and the cursor moves left |
| Editor.Editor.JoinRow | main.go:548-555 | The line is appended to the line above and removed; the cursor goes to the old end of the line above |
| Editor.Editor.AppendToAbove | main.go:551-552 | The line above gains the cursor's line at its end |
| Editor.Editor.MoveCursor | main.go:960-1011 | The cursor becomes Viewport.CursorAfterMove of the old one and is within its line |
| Editor.Editor.Page | main.go:1055-1074 | The cursor becomes Viewport.PageMove of the old one |
| Editor.Editor.MoveRepeatedly | main.go:1067-1074 | The countdown loop applies the arrow the given number of times |
| Editor.Editor.Scroll | main.go:780-806 | rx is the render column of the cursor (0 past the end); each offset is the minimal move that shows the cursor |
| Editor.Editor.RestoreHighlights | main.go:631-638 | The marked row gets its saved tags back, nothing stays marked, and the lines are unchanged |
| Editor.Editor.MarkMatch | main.go:689-691 | The matched span of the row is tagged HL_MATCH, and nothing else changes |
| Editor.Editor.OnInputFind | main.go:629-695 | Restores the marked row; Enter and ESC only reset lastMatch to -1 and direction to 1; other keys scan from Search.ScanFrom and end in Editor.Editor.ScanOutcome: on a hit, the cursor is on the match, rowOffset is numrows, the saved tags are the row's own, and exactly the match is tagged; with no hit, the cursor and tags are unchanged |
| Editor.Editor.Rescan | main.go:645-694 | The scan's start and direction follow from the key and the previous match; an empty slice makes no probe |
| Editor.Editor.ScanRows | main.go:662-694 | The scan and its hit handling establish ScanOutcome |
| Editor.Editor.MarkHit | main.go:676-691 | A hit sets lastMatch and cy to the row, cx to the content column of the match, and rowOffset to numrows; it saves the row's tags and tags the match |
| Editor.Editor.FindStep | main.go:927-955 | One prompt round: the input follows Search.PromptStep, and the lines are unchanged. A finished prompt clears the status message and leaves no search in progress. Enter and ESC keep the cursor; any other key scans from Search.ScanFrom and ends in Editor.Editor.ScanOutcome, relative to the offset the refresh scrolled to |
| Editor.Editor.ShowPrompt | main.go:927-928 | The prompt becomes the status message, and the refresh moves each offset by the minimal amount that shows the cursor |
| Editor.Editor.Prompt | main.go:923-956 | The prompt loop stops at the first key that ends the prompt and returns the input on submit and "" on cancel; the lines are unchanged |
| Editor.Editor.Find | main.go:698-713 | A cancelled search puts the cursor and both offsets back where they were; a finished search leaves no search in progress |
| Editor.Editor.Save | main.go:598-612 | A named buffer writes the text of its numrows lines, becomes clean, and reports the number of bytes written |
| Editor.Editor.EditKey | main.go:1017-1094 | The lines and cursor become Editor.KeyEffect of the old ones; dirty is set exactly when the lines change, and otherwise keeps its value |
| Editor.Editor.EraseKey | main.go:1044-1052 | Backspace, Ctrl-H and Del (after moving right) act as Editor.KeyEffect; dirty is set exactly when the lines change |
| Editor.Editor.ProcessKeypress | main.go:1014-1100 | The result and the new counter follow Editor.QuitStep. Ctrl-Q on a modified buffer warns with the number of presses left and changes nothing else. Ctrl-S cleans a named buffer, Ctrl-F keeps the lines, and every other key acts as Editor.KeyEffect, setting dirty exactly when the lines change. Ctrl-S on an unnamed buffer leaves dirty as it was |
| Editor.Editor.Dispatch | main.go:1031-1094 | The switch for the keys other than Ctrl-Q: edit keys act as Editor.KeyEffect and touch dirty only when they change the lines; Ctrl-S cleans a named buffer and leaves an unnamed one's dirty as it was; Ctrl-F keeps the lines and dirty |
| Editor.Editor.Quit | main.go:1020-1029 | On a modified buffer with presses left, the editor keeps running, the counter drops by one, and the warning names the count; otherwise the editor stops |
| Editor.Editor.RefreshScreen | main.go:809-836 | Scrolls, then writes the frame of Editor.Frame; the cursor's screen position is inside the window |

## Left out

- Terminal raw mode, the window-size query, the reads from stdin and the writes to stdout (main.go:144-192, 287-344, 833-835): these are system calls. Keys are a given sequence, and a frame is a returned string.
- `editorOpen` (main.go:572-587) reads a file. The file access is not modelled; its line splitting is `Buffer.ScanLines`, and `Buffer.ScanJoinLines` states what reading back a saved text gives. `bufio.Scanner` also stops at a line longer than 64 KiB, so the rest of such a file is not loaded; that limit is not modelled.
- `cleanScreen` (main.go:840-845) and the flush on quit (main.go:1027-1028): terminal output only.
- Editor.Editor.InsertRow: follows the corrected `editorInsertRow` of the Findings, which renders the inserted row. The source renders `rows[numrows]`, so after Enter in the middle of the buffer the split-off row is left with an empty render. The class invariant that every row is rendered (`RowsRendered`) does not hold of the source from then on, and the search contracts rely on it.
- Editor.Editor.Save: writes the text of the first numrows rows, as corrected in the Findings. The source writes every row of the slice, stale rows past numrows included.
- Editor.Editor.RefreshScreen: draws `Screen.VisibleSpan` with the tags of the same columns, as corrected in the Findings; so do `Editor.PaintFrame` and `Screen.DrawRows`. The source draws `render[colOffset:rowSize]` with the tags read from index 0.
- Editor.Editor.Save: an unnamed buffer is left unchanged. The source instead prompts "Save as" and then calls `os.Create` on the answer; cancelling that prompt leaves the name empty and the create fails. File errors are not modelled either.
- Editor.Editor.RowDelChar: requires `at != len(content)`. The source's guard lets that index through, and `slices.Delete` then fails at run time. The only callers pass `cx - 1 < len`.
- Editor.Editor.DelRow: follows the `golang.org/x/exp/slices` behaviour in which the deleted slot's last element stays in place. Versions that zero that element leave an empty row there instead; the stale line found under Findings is then empty rather than a copy.
- Editor.Editor.ProcessKeypress: requires no search in progress and `rowOffset <= numrows`. Both hold between keypresses, because a finished search resets its globals and the refresh before each key scrolls the cursor into view.
- Editor.Editor.Find: the prompt keys are a finite sequence. When they run out before ESC or Enter, the search stays in progress and its state is returned as it is. The source would keep reading keys.
- Editor.Editor.FindStep: the frames refreshed during the prompt are not collected. Only the scroll they cause is modelled.
- Editor.Editor.constructor: requires a terminal of at least 3 rows and 1 column. On smaller terminals the source's `screenrows - 2` is 0 or negative, and PageDown could move the cursor above line 0.
- Editor.Editor.RefreshScreen: the status message's age (`time.Since`, main.go:722, 774) is the parameter `recent`. The clock is not modelled.
- Non-ASCII input: `Len()` counts bytes while the edits work on runes, and `unicode.IsDigit` and `unicode.IsControl` (main.go:362, 949) accept more than ASCII. The model uses ASCII characters, where these agree.
- `fmt.Sprintf`'s `%.20s` and `%d` are written out as `Screen.StatusLeft`, `Util.DecimalInt` and `Screen.CursorTo`. No general formatter is modelled.

## Findings

| source | as written | input that shows it | evidently intended | confidence | as-written member | corrected member |
|---|---|---|---|---|---|---|
| main.go:493, 563-570, 598 | `editorSave` writes every row of `config.rows`. `editorDelRow` discards the result of `slices.Delete`, so the slice keeps its old length and its last row stays past numrows | rows "a" and "b"; the cursor at the start of "b"; Backspace, then Ctrl-S: the file receives "ab\nb\n" | write only the numrows rows of the buffer: "ab\n" | not executed | Buffer.RowsToString, Buffer.MergedRowsSerialiseStaleLine | Buffer.BufferText, Buffer.BufferTextRoundTrip, Editor.Editor.Save |
| main.go:448-450 | `editorInsertRow` renders `rows[numrows]` rather than the inserted row | rows "ab" and "c"; the cursor after "a"; Enter: the new row "b" has an empty render and no tags, so it is drawn blank and a search never finds it | render the inserted row, `rows[at]` | not executed | Buffer.InsertRowAsWritten, Buffer.InsertRowAsWrittenLeavesRowUnrendered | Buffer.InsertRowRendered, Buffer.InsertRowRenderedKeepsRendering, Editor.Editor.InsertRow |
| main.go:878-889 | `editorDrawRows` uses rowSize, a column count, as the end index of `render[colOffset:rowSize]`, and reads the tags from index 0 | row "12345678ab" (render of 11 columns), 80 columns. With colOffset 1, 'a' is drawn red; only its colour is wrong, since the column left out is the NUL padding. With colOffset 6, nothing is drawn although "78ab" is inside the window | draw `render[colOffset:colOffset+rowSize]` with the tags at the same indices | not executed | Screen.DrawnAsWritten, Screen.DrawnAsWrittenMiscolours, Screen.DrawnAsWrittenBlanks | Screen.VisibleSpan, Screen.DrawnIsWindow, Screen.DrawRow |
