# WinPort models

Dafny models of the hard parts of WinPort, the Win32 layer under far2m, with proofs of what they keep.

- **Console screen engine** (`ConsoleBuffer.dfy`, `ConsoleOutput.dfy`, over `Matrix.dfy`): the cell grid in its flat
  vector, the cursor, wrap, tabs, the scroll region and its callback, rectangle copies, and deferred repaints.
  `Terminal.dfy` is the unbounded terminal the screen is a window on, `Repaints.dfy` the list of areas. What the backend
  has drawn is a ghost field: an area the backend is told about is redrawn from the cells at that moment.
- **Protocols**: `ShadowConsole.dfy` (freeze and unfreeze with an atomic pointer and a use count, one step per atomic
  access) and `InputProtocol.dfy` (the priority-gated input queue with condition-variable waiters, one step per critical
  section, callbacks run after it). `ConsoleInput.dfy` is the queue class itself and the call that drains it;
  `InputProtocol.Perform` ties its methods to the protocol's steps.
- **Calendar** (`Calendar.dfy`): the closed March-based day formulas in both directions against plain counting of days;
  `LocalTime.dfy`: the bias between local time and UTC.
- **Codecs**: `Utf7.dfy` (RFC 2152), `Utf8.dfy` (RFC 3629, section 3), `WideToBytes.dfy` and `BytesToWide.dfy` (single-
  and double-byte codepages), `CodepageRoundTrip.dfy` (one undoing the other), `Unrolled.dfy` (their sixteen-way loops),
  `Decompose.dfy`, `Compose.dfy`. `Buffers.dfy` says what "query, then fill" means for all of them.
- **Collation** (`Collation.dfy`, `SortKey.dfy`): comparison as a refinement of a lexicographic order, and two-pass sort
  keys.
- **Registry** (`Registry.dfy`): the three-line text format and its parser.

`Basics.dfy` holds what several of them use. The formats, orders and layouts themselves are stated apart from the
models, in literal characters, codes and coordinates: `TerminalText.dfy`, `ConsoleCells.dfy`, `CollationOrder.dfy`,
`SortKeyOrder.dfy`, `Utf7Format.dfy`, `Utf8Format.dfy`, `CodepageTable.dfy`, `DecomposeTable.dfy`, `RegistryFormat.dfy`.

Code that updates state is modelled by classes, arrays and loops, each method proved against a function or predicate of
the old state; what the source promises is then proved about those as lemmas. Tables (Unicode, codepages, collation) and
character classes are parameters under the well-formedness they need. Integer widths are explicit where they matter:
SHORT coordinates are truncated by `ToShort`, UTF-7 works on 32-bit vectors, file times wrap at 64 bits.

Where a property turns out false of the code, the code is kept, and the condition under which the property holds is
proved, in both directions; inputs or runs that show the failure stand beside it:

- tabs without wrap need not end (`Terminal.LoopEndsIff`, `Terminal.TabEndsIff`);
- a scroll region may end above the first line (`ConsoleOutput.SetScrollRegion`);
- merging deferred repaints may lose cells (`Repaints.AddedIsUnionIff`, `Repaints.HarmlessIff`,
  `ConsoleOutput.LostRepaint`);
- moving the cursor may report neither of its cells (`ConsoleOutputs.CursorReportedIff`);
- freezes that overlap may delete a shadow in use (`ShadowConsole.RunIsSafeIff`,
  `ShadowConsole.OverlappingFreezesAreUnsafe`);
- tick counts may exceed the signed 64 bits they are computed in (`Calendar.NoOverflowIff`, `Calendar.TicksRoundTrip`),
  and the bias across a new year may be off by half a minute (`LocalTime.BiasIsExactIff`);
- a UTF-8 buffer that just fits may be refused (`Utf8.MbsToWcs`, `Utf8.QueryFallsShort`), and strict decoding accepts
  encoded surrogates, against RFC 3629, section 3 (`Utf8.AcceptsWellFormedIff`, `Utf8.SurrogateIsAccepted`);
- text checked for invalid characters may still hold one (`BytesToWide.AcceptsValidIff`, `BytesToWide.NulIsMischecked`),
  and text encoded without best fits may be refused by that check (`CodepageRoundTrip.StrictRoundTripIff`);
- the short-cut size query may count wrongly (`WideToBytes.ShortcutIsRightIff`, `WideToBytes.ShortcutMiscounts`);
- comparison need not be a preorder (`Collation.PreorderIff`, `Collation.DashesDisagree`,
  `Collation.FullStopIsNothing`);
- sort keys may be shorter than their query says (`SortKeys.KeyLength`), and their bytes may order strings against their
  weights (`SortKeyOrder.SeparatedIff`);
- a backspace past the last column goes to the next line (`TerminalText.BackspaceGoesLeft`);
- names with line breaks do not come back (`Registry.NameRoundTripIff`), nor does wide text that its conversion changes
  (`Registry.RestoredIff`).

The code differs from its own comments in two places, and the model follows the code: `wine_get_sortkey` writes fewer
bytes than its size query says for level-3 characters with a zero low byte, and the 29 February of common years passes
the guard of `SystemTimeToFileTime`.

## Model

| member | source | states |
|---|---|---|
| ConsoleOutputs.ConsoleOutput.WriteStrings | WinPort/src/ConsoleOutput.cpp:498-597 | **Main result.** For any run of strings of plain characters, CR, LF, BS, tab and bell that ends, with a scroll callback installed and a region of at least two lines at the top (one of a single line does not scroll): lines handed to the callback followed by the region's rows are the lines of one unbounded terminal fed the concatenation, and cursor row plus number of logged lines is the unbounded row |
| ConsoleOutputs.ConsoleOutput.WriteFromStart | WinPort/src/ConsoleOutput.cpp:498-597 | **Main result.** The same from the start, with nothing required but plain text: a new console with a callback, given any run of strings, is a window on the terminal that begins as 25 blank lines of 80 columns |
| ConsoleOutputs.ConsoleOutput.StartsWindowed | WinPort/src/ConsoleOutput.cpp:741-746 | A console that has handed nothing away, with a callback and the whole screen for a region, is a window on the terminal of its own rows |
| ConsoleOutputs.ConsoleOutput.Session | WinPort/src/ConsoleOutput.cpp:290-336 | **Main result.** Over any run of writes at the cursor or elsewhere, fills, scrolls, resizes, cursor moves, mode changes, nested deferrals, forks, calls on the fork and joins: unless a merge of deferred areas loses cells, every cell changed since the backend drew it lies in a deferred area, and with nothing deferred the backend shows the screen; no merge loses cells if every rectangle reported while repaints are deferred is harmless |
| ConsoleOutputs.ConsoleOutput.LostRepaint | WinPort/src/ConsoleOutput.cpp:38-60 | And one that does lose a repaint: a cell is written while repaints are deferred, then a block at a rectangle that begins right of the cell and ends left of it; when deferral ends the backend does not show the cell |
| ConsoleOutputs.ConsoleOutput.Scroll | WinPort/src/ConsoleOutput.cpp:646-720 | **Main result.** A simultaneous move for every overlap, whether or not source, clip or destination reach off the screen: cells of the destination in the clip get the old source cells, or what the temporary block held where the source is off the screen; source cells in the clip that are not overwritten get the fill; every other cell stays; nothing happens for an inverted rectangle; the reported areas cover the change |
| ConsoleOutputs.ConsoleOutput.ModifySequenceAt | WinPort/src/ConsoleOutput.cpp:498-590 | Ends for every sequence whose tabs are met before the last stop, returns the item count less the bells, keeps X in 0..width+1, never takes Y from above the scroll edge to it or past it, keeps the window on the unbounded terminal, and loses no repaint |
| ConsoleOutputs.ConsoleOutput.Report | WinPort/src/ConsoleOutput.cpp:563-589 | While repaints are deferred the areas go to the list, else the backend draws them: the cursor's two, unless the cursor is where the first begins, and the changed one, unless nothing changed; the picture is kept |
| ConsoleOutputs.CursorReportedIff | WinPort/src/ConsoleOutput.cpp:563-567 | **Exact condition.** The cursor's old and new cell are reported iff it moved, except that a cursor on the blank half of a full-width character counts as being on its lead: moving there reports nothing of it, staying reports both |
| ConsoleOutputs.ConsoleOutput.WriteItems | WinPort/src/ConsoleOutput.cpp:498-561 | The loop of ModifySequenceAt, with its termination measure: items left, then blanks to the next tab stop across a wrap; the area it returns covers every changed cell |
| ConsoleOutputs.ConsoleOutput.Pass | WinPort/src/ConsoleOutput.cpp:511-561 | One pass of that loop: a tab that is not consumed has fewer blanks to go, any other item moves the unbounded terminal on by one item, and what is left of the sequence still ends |
| ConsoleOutputs.ConsoleOutput.ModifyItem | WinPort/src/ConsoleOutput.cpp:521-550 | Wrap or pull-back, then the item: one step of the reference terminal, with Y kept above the edge and all changes inside the area |
| ConsoleOutputs.ConsoleOutput.ApplyItem | WinPort/src/ConsoleOutput.cpp:534-550 | Backspace, return, line feed or a put item, from a settled cursor: the column it gives, and the reference terminal's step |
| ConsoleOutputs.ConsoleOutput.SettleCursor | WinPort/src/ConsoleOutput.cpp:521-532 | A cursor past the last column wraps (fills always, strings with wrap on and not before CR or LF) or is pulled back |
| ConsoleOutputs.ConsoleOutput.NextLine | WinPort/src/ConsoleOutput.cpp:525-547 | Y grows by one unless that reaches the scroll edge, where the region scrolls instead and Y stays: a line feed of the unbounded terminal |
| ConsoleOutputs.ConsoleOutput.PlaceItem | WinPort/src/ConsoleOutput.cpp:404-496 | Puts one item at the cursor and advances by one column, or two for a full-width character |
| ConsoleOutputs.ConsoleOutput.ModifySequenceEntityAt | WinPort/src/ConsoleOutput.cpp:404-496 | A character goes where EnteredAs says and nothing else changes; a fill changes its cell only; plain text on a screen without joiners is put at the cursor and moves it by its width |
| ConsoleOutputs.ConsoleOutput.ComposeChar | WinPort/src/ConsoleOutput.cpp:404-482 | For every character: a prefix stays under the cursor, a suffix joins the cell written last and moves nothing (a variation selector 16 one column), a character after a joiner is taken into that cell, a suffix without such a cell is dropped, a processed tab is a space, others make a cell of one or two columns |
| ConsoleOutputs.ConsoleOutput.EnterChar | WinPort/src/ConsoleOutput.cpp:404-496 | The screen after that character, changes covered by the area |
| ConsoleOutputs.PlainIsPut | WinPort/src/ConsoleOutput.cpp:404-482 | A plain character on a screen without joiners is put where the cursor is, in one column or two |
| ConsoleOutputs.EnteredColumns | WinPort/src/ConsoleOutput.cpp:404-482 | Whatever the character, the cursor moves 0 to 2 columns, by one of the numbers that decide whether tabs end |
| ConsoleOutputs.ConsoleOutput.PutChar | WinPort/src/ConsoleOutput.cpp:484-496 | Writes the cell and, if it changed and is full-width, the blank half after it; the grown area covers both |
| ConsoleOutputs.ConsoleOutput.ScrollOutputOnOverflow | WinPort/src/ConsoleOutput.cpp:355-402 | Region up by one line and a blank line at the edge; the top line goes to the callback first, exactly when there is one and the region starts at the top; a region of fewer than two lines stays; one upside down only has its last line blanked |
| ConsoleOutputs.ConsoleOutput.WriteString | WinPort/src/ConsoleOutput.cpp:592-597 | The cursor follows; the return value is the count less the bells; the window and the picture are kept |
| ConsoleOutputs.ConsoleOutput.WriteStringAt | WinPort/src/ConsoleOutput.cpp:600-605 | The same at a position of the caller's, which follows; the cursor stays |
| ConsoleOutputs.ConsoleOutput.FillCharacterAt | WinPort/src/ConsoleOutput.cpp:608-613 | Returns the count asked for (no bells in a fill); the screen stays a window on the terminal that fills characters, keeping attributes; no repaint is lost |
| ConsoleOutputs.ConsoleOutput.FillAttributeAt | WinPort/src/ConsoleOutput.cpp:616-621 | Returns the count asked for; the screen stays a window on the terminal that fills attributes, keeping characters; no repaint is lost |
| ConsoleOutputs.ConsoleOutput.WriteBlock | WinPort/src/ConsoleOutput.cpp:290-304 | Cells of the clipped rectangle become the caller's, all others stay; the clipped rectangle, inverted or not, is what goes to the list |
| ConsoleOutputs.ConsoleOutput.WriteCell | WinPort/src/ConsoleOutput.cpp:312-336 | False exactly outside the screen; one cell changes; if it changed its area, widened for full-width neighbours, goes to the list or the backend |
| ConsoleOutputs.ConsoleOutput.CellArea | WinPort/src/ConsoleOutput.cpp:116-128 | The position and, if its character takes one, the cell beside it; never empty |
| ConsoleOutputs.ConsoleOutput.SetCursor | WinPort/src/ConsoleOutput.cpp:138-158 | The cursor is where asked; both cell areas are reported and the picture is kept |
| ConsoleOutputs.ConsoleOutput.SetSize | WinPort/src/ConsoleOutput.cpp:201-217 | At least 24 by 12; the common part of the contents stays, the rest is blank; the cursor is pulled inside; the region is reset |
| ConsoleOutputs.ConsoleOutput.constructor | WinPort/src/ConsoleOutput.cpp:70-84 | 80 by 25 blank cells, full-screen region, nothing deferred, no callback |
| ConsoleOutputs.ConsoleOutput.SetScrollCallback | WinPort/src/ConsoleOutput.cpp:741-746 | A callback is there from then on, or none |
| ConsoleOutputs.ConsoleOutput.SetMode | WinPort/src/ConsoleOutput.cpp:274-282 | The mode becomes the one given, but for the insert and quick-edit bits, which stay as they were unless the extended bit is set |
| ConsoleOutputs.ConsoleOutput.RepaintsDeferStart | WinPort/src/ConsoleOutput.cpp:818-823 | One more level of deferral; the picture's lag is unchanged |
| ConsoleOutputs.ConsoleOutput.RepaintsDeferFinish | WinPort/src/ConsoleOutput.cpp:825-845 | One level less, or none; at the last the backend draws the list, which is then empty, and, unless a merge lost cells, shows the screen |
| ConsoleOutputs.ConsoleOutput.AddRepaint | WinPort/src/ConsoleOutput.cpp:38-60 | The list is the merged one, and stands for the union as long as no merge loses cells |
| ConsoleOutputs.ConsoleOutput.AddRepaints | WinPort/src/ConsoleOutput.cpp:62-67 | The same for several areas, one after the other |
| ConsoleOutputs.ConsoleOutput.Repaint | WinPort/src/ConsoleOutput.cpp:563-589 | Areas that cover the changes go to the list while deferred, else to the backend: either way the picture is kept, unless a merge loses cells |
| ConsoleOutputs.ConsoleOutput.ClipRect | WinPort/src/ConsoleOutput.cpp:624-644 | The intersection with the clip, and the data offset moved by what was cut off left and top |
| ConsoleOutputs.ConsoleOutput.FillRect | WinPort/src/ConsoleOutput.cpp:689-697 | The fill loops put the fill into exactly the cells of the rectangle |
| ConsoleOutputs.ConsoleOutput.ScrollIsMove | WinPort/src/ConsoleOutput.cpp:646-720 | Fill after read and clipped write come to the simultaneous move, and the write copies something exactly if there is a target |
| ConsoleOutputs.ConsoleOutput.SetScrollRegion | WinPort/src/ConsoleOutput.cpp:722-731 | The region is a proper one inside the screen except exactly when bottom <= 0 < top, which leaves it upside down (top 65535) |
| ConsoleOutputs.ConsoleOutput.CopyFrom | WinPort/src/ConsoleOutput.cpp:86-96 | Contents, settings, cursor and region are taken over; deferral is not |
| ConsoleOutputs.ConsoleOutput.Fork | WinPort/src/ConsoleOutput.cpp:865-872 | A fork starts with the same contents, settings and cursor |
| ConsoleOutputs.ConsoleOutput.Join | WinPort/src/ConsoleOutput.cpp:874-890 | The joined console's contents cut or padded to this one's size; everything is redrawn, deferral or not |
| ConsoleOutputs.RedrawnIsCurrent | WinPort/src/ConsoleOutput.cpp:582-589 | If the areas cover the lag, drawing them makes the picture current |
| ConsoleOutputs.DifferCompose | WinPort/src/ConsoleOutput.cpp:571-578 | Lags add up: a picture behind by some areas of a screen that then changed inside others is behind by both |
| ConsoleOutputs.DestinationCopiesTargets | WinPort/src/ConsoleOutput.cpp:646-720 | The clipped destination with its offset covers exactly the target cells, matching each with its source cell, for any source, clip and origin; nothing is copied if it starts left of or above the screen or ends beyond SHORT |
| ConsoleOutputs.ScrollRepaints | WinPort/src/ConsoleOutput.cpp:705-717 | The rectangles Scroll reports cover all it changed |
| ConsoleCells.ScrolledCell | WinPort/src/ConsoleOutput.cpp:646-720 | **Main result** in coordinates: a cell in the clip whose source cell is in the source shows what stood there, if the destination starts on the screen and ends within SHORT; else a cell of the source in the clip shows the fill, and any other is as it was |
| ConsoleCells.ScrolledRow | WinPort/src/ConsoleOutput.cpp:355-402 | Every row of the region but the last takes the one below it, the last is blanks |
| ConsoleCells.BlockIsRowMajor | WinPort/src/ConsoleBuffer.cpp:81-112 | A block of cells is given row by row |
| ConsoleCells.BlockCell | WinPort/src/ConsoleBuffer.cpp:44-112 | Which cell of a block a write puts where on the screen, and that others stay |
| ConsoleCells.AreaOfCell | WinPort/src/ConsoleOutput.cpp:116-128 | The area of a cell is exactly the cell and, for a blank half, the one to its left, or else, for a full-width text, the one to its right |
| ConsoleCells.PrefixStays | WinPort/src/ConsoleOutput.cpp:423-428 | A prefix is in the cursor's cell and moves nothing |
| ConsoleCells.SuffixJoins | WinPort/src/ConsoleOutput.cpp:429-442 | A suffix is added to the text of the cell written last, in the attributes in force; 0xFE0F also blanks the cell behind and moves the cursor one column; without such a cell nothing happens |
| ConsoleCells.JoinerJoins | WinPort/src/ConsoleOutput.cpp:445-463 | After a text that ends in 0x200D a character is added to that text, keeping the attributes, and moves nothing |
| Terminal.RunSplits | WinPort/src/ConsoleOutput.cpp:498-561 | On the reference terminal, one string after another is their concatenation, and each of them ends if that does |
| Terminal.RunExtends | WinPort/src/ConsoleOutput.cpp:498-561 | Lines above the cursor never change again, so they may be handed away |
| Terminal.RunOnce | WinPort/src/ConsoleOutput.cpp:511-561 | The code's loop, one blank at a time for a tab, runs the reference terminal's items |
| Terminal.TabProgress | WinPort/src/ConsoleOutput.cpp:551-556 | Before the last stop, with wrap, or on a width of whole tab stops, a blank brings the next tab stop nearer |
| Terminal.LoopEndsIff | WinPort/src/ConsoleOutput.cpp:511-561 | **Exact condition** for a whole sequence: the loop ends, whatever is on the screen, iff every tab in it is met before the last stop, or there is wrap, or the width is a multiple of 8 |
| Terminal.TabsAlwaysEnd | WinPort/src/ConsoleOutput.cpp:511-561 | With wrap, on a width that is a multiple of 8, without processing or without tabs it always ends |
| Terminal.TabEndsIff | WinPort/src/ConsoleOutput.cpp:511-561 | **Exact condition** for a tab: the passes over it come to an end iff wrap is on, the width is a multiple of 8 or the cursor stands before the last stop |
| TerminalText.ItemsFillCells | WinPort/src/ConsoleOutput.cpp:511-561 | **Main result.** Text of narrow characters that wraps, and every fill: the k-th item goes into the k-th cell from the cursor on, line after line, the cursor stands behind the last, and no other cell changes; a string sets text and attributes, a fill of characters keeps the attributes and one of attributes the text |
| TerminalText.TextFillsRows | WinPort/src/ConsoleOutput.cpp:521-550 | So character k from column x on is in row (x + k) / width and column (x + k) % width |
| TerminalText.LineFeedKeepsColumn | WinPort/src/ConsoleOutput.cpp:521-547 | Character 10, from any column: one row down in column min(x, width - 1), wrap or not, all lines as they were and at most one blank line more |
| TerminalText.ReturnKeepsLine | WinPort/src/ConsoleOutput.cpp:521-539 | Character 13, from any column: column 0 of the same row, all lines as they were |
| TerminalText.BackspaceGoesLeft | WinPort/src/ConsoleOutput.cpp:521-537 | Character 8: column max(min(x, width - 1) - 1, 0) of the same row, except exactly past the last column with wrap, which takes it to the beginning of the next row |
| TerminalText.BellDoesNothing | WinPort/src/ConsoleOutput.cpp:513-519 | Character 7 changes nothing |
| TerminalText.TabIsBlanks | WinPort/src/ConsoleOutput.cpp:551-556 | A tab is as many blanks as lead to the next multiple of 8, over the end of the line if that is nearer |
| TerminalText.WideTakesTwo | WinPort/src/ConsoleOutput.cpp:404-496 | A full-width character takes its cell and blanks the one behind it, unless the cell shows it already or is the last of its line |
| TerminalText.NoWrapOverwrites | WinPort/src/ConsoleOutput.cpp:521-532 | Past the last column without wrap a character goes into the last one |
| Repaints.AddedIsUnion | WinPort/src/ConsoleOutput.cpp:38-60 | **Main result.** For any areas, inverted ones too: merging to the right, merging below, dropping a repetition or appending keeps the list exactly the union, if a merge, where there is one, loses nothing |
| Repaints.AddedIsUnionIff | WinPort/src/ConsoleOutput.cpp:38-60 | **Exact condition.** Adding an area keeps every list with a given last entry a union iff that test on the last entry and the area holds |
| Repaints.AddedGainsNothing | WinPort/src/ConsoleOutput.cpp:38-60 | Cells are only ever lost, never gained |
| Repaints.AddedAllIsUnion | WinPort/src/ConsoleOutput.cpp:62-67 | The same over several areas |
| Repaints.HarmlessLosesNothing | WinPort/src/ConsoleOutput.cpp:38-67 | Harmless areas, deferred and added, lose nothing among themselves, and what they are merged into is harmless again |
| Repaints.HarmlessIff | WinPort/src/ConsoleOutput.cpp:38-60 | **Exact condition** on one area alone: beside whatever area with cells in it, before or after, nothing is lost iff it has cells, or lacks no more than one column, if it has rows, and one row, if it has columns |
| Repaints.MergeRightIff | WinPort/src/ConsoleOutput.cpp:43-47 | A merge to the right is exact iff there are no rows, or the second range ends no earlier than a first that has columns, or the first has none and the second has none or begins where it does |
| Repaints.MergeDownIff | WinPort/src/ConsoleOutput.cpp:48-52 | The same for merging below |
| ConsoleBuffers.ConsoleBuffer.SetSize | WinPort/src/ConsoleBuffer.cpp:8-28 | Common rows and columns are kept, new cells are blanks with the given attributes; sides may be zero |
| ConsoleBuffers.ConsoleBuffer.InspectCopyArea | WinPort/src/ConsoleBuffer.cpp:44-79 | The clipped rectangle and whether anything is to be copied; every index of the copy loops lies inside the data |
| ConsoleBuffers.ConsoleBuffer.Read | WinPort/src/ConsoleBuffer.cpp:81-98 | The caller's block gets the screen's cells of the clipped rectangle and is untouched elsewhere |
| ConsoleBuffers.ConsoleBuffer.Write | WinPort/src/ConsoleBuffer.cpp:100-112 | The screen gets the block's cells in the clipped rectangle and is untouched elsewhere |
| ConsoleBuffers.ConsoleBuffer.ReadCell | WinPort/src/ConsoleBuffer.cpp:114-128 | Fails exactly outside the screen |
| ConsoleBuffers.ConsoleBuffer.WriteCell | WinPort/src/ConsoleBuffer.cpp:130-148 | Bad outside the screen, same if equal, else modified, with exactly that cell changed |
| ConsoleBuffers.ConsoleBuffer.GetSize | WinPort/src/ConsoleBuffer.cpp:30-34 | Recovers width and height from the flat cell vector |
| Matrix.BlitRow | WinPort/src/ConsoleBuffer.cpp:87-92 | A row spliced into flat storage is a row of the block copied into the grid |
| ShadowConsole.RunIsSafeIff | WinPort/src/APIConsole.cpp:24-99 | **Main result, exact condition.** A run is safe throughout iff no freeze call deletes, after being overtaken by another, the displaced shadow while some call uses it; unfreeze calls never put a call in danger |
| ShadowConsole.RunIsSafe | WinPort/src/APIConsole.cpp:24-99 | **Main result.** With freeze calls apart from each other, whatever the unfreeze calls do, in every state of every interleaving the count is exact, no call holds a deleted shadow and none can get one |
| ShadowConsole.JoinedStaysGone | WinPort/src/APIConsole.cpp:87-99 | In any run: once joined, and so deleted, a shadow is never live or published again, and in a safe state no call uses it |
| ShadowConsole.CountIsExact | WinPort/src/APIConsole.cpp:24-52 | The use count is the number of calls between increment and decrement in every run, however freeze and unfreeze calls overlap |
| ShadowConsole.RunKeepsOwners | WinPort/src/APIConsole.cpp:69-99 | In every run: each live shadow is published or owned by exactly one freeze or unfreeze call, so none leaks, and one in use is published or held by a call that has yet to join it |
| ShadowConsole.ControlKeepsOwners | WinPort/src/APIConsole.cpp:69-99 | Each freeze and unfreeze step keeps one owner for each shadow |
| ShadowConsole.OverlappingFreezesAreUnsafe | WinPort/src/APIConsole.cpp:69-85 | That freezes be apart is needed everywhere: any run that reaches two freeze calls, neither of which has published its shadow, has a continuation that ends with a call holding a deleted shadow |
| ShadowConsole.FreezesCanOverlap | WinPort/src/APIConsole.cpp:69-85 | Such runs there are |
| ShadowConsole.FreezeThenUnfreeze | WinPort/src/APIConsole.cpp:69-99 | From any reachable state without a shadow, undisturbed: a freeze publishes a new live shadow, and an unfreeze takes it away, all being as it was before |
| InputProtocol.RunKeepsInv | WinPort/src/ConsoleInput.cpp:326-535 | **Main result.** In every state of every interleaving, callbacks that make calls themselves included: a sleeping, un-notified waiter has an empty queue or too low a priority (no lost wake-up); events left in arrival order, each once; each taken callback was run once or is due; nobody took an event below the current priority |
| InputProtocol.NextKeepsInv | WinPort/src/ConsoleInput.cpp:326-535 | The inductive step over enqueue, peek, dequeue, callback runs, flush, raise, lower, fork, join, wait, wake and timeout |
| InputProtocol.CallKeepsReason | WinPort/src/ConsoleInput.cpp:450-510 | A call that does not notify leaves every sleeper with its reason to sleep |
| InputProtocol.FirstInFirstOut | WinPort/src/ConsoleInput.cpp:402-430 | The k-th event ever to leave is the k-th that arrived, across forks and joins |
| InputProtocol.CallbacksRunOnce | WinPort/src/ConsoleInput.cpp:355-387 | With no callback due each taken one has been run exactly as often as it was taken, however often it was peeked at |
| InputProtocol.MainContinues | WinPort/src/ConsoleInput.cpp:326-535 | Along a run what arrived, what became of it and which callbacks were run are only ever appended to |
| InputProtocol.Perform | WinPort/src/ConsoleInput.cpp:326-510 | The queue class takes the protocol's steps: each method is the step of its name, runs the callbacks it took and none that are due elsewhere, and notifies when the step does |
| InputProtocol.AllInvokedBySteps | WinPort/src/ConsoleInput.cpp:367-430 | Running one call's callbacks in a row, as a method does, is running them one protocol step at a time |
| InputProtocol.PerformJoin | WinPort/src/ConsoleInput.cpp:524-535 | Joining a forked queue object is the protocol's join step on the main queue, with its notification |
| InputProtocol.SleeperHasReason | WinPort/src/ConsoleInput.cpp:450-483 | No lost wake-up, said of the queue alone: who sleeps un-notified finds nothing pending, or a priority above its own raised |
| InputProtocol.WakesIff | WinPort/src/ConsoleInput.cpp:450-483 | A waiter that checks is through iff something is pending and no priority above its own is raised |
| ConsoleInputs.ConsoleInput.Enqueue | WinPort/src/ConsoleInput.cpp:326-353 | Appends in order; notifies unless there is nothing |
| ConsoleInputs.ConsoleInput.Peek | WinPort/src/ConsoleInput.cpp:367-387 | A requestor below the current priority gets nothing; others a copy of the front, callbacks blanked and not run |
| ConsoleInputs.ConsoleInput.Dequeue | WinPort/src/ConsoleInput.cpp:402-431 | A requestor below the current priority takes nothing; others take the front in order, callbacks blanked, and the taken callbacks are run once, in order |
| ConsoleInputs.ConsoleInput.InspectCallbacks | WinPort/src/ConsoleInput.cpp:355-365 | Callback events become no-ops; they are run, in order, if asked for |
| ConsoleInputs.ConsoleInput.Flush | WinPort/src/ConsoleInput.cpp:439-448 | Empties the queue and returns its length, or, below the current priority, returns 0 and leaves it |
| ConsoleInputs.ConsoleInput.RaiseRequestorPriority | WinPort/src/ConsoleInput.cpp:485-495 | The new priority is the current one from then on |
| ConsoleInputs.ConsoleInput.LowerRequestorPriority | WinPort/src/ConsoleInput.cpp:497-508 | Removes it, and notifies if events are pending |
| ConsoleInputs.ConsoleInput.CurrentPriority | WinPort/src/ConsoleInput.cpp:510-516 | The largest priority raised and not lowered, or 0 |
| ConsoleInputs.ConsoleInput.JoinConsoleInput | WinPort/src/ConsoleInput.cpp:524-535 | The fork's events follow this queue's, in order |
| ConsoleInputs.ConsoleInput.CheckForKeyPress | WinPort/src/APIConsole.cpp:331-368 | Drains the queue if priority 0 suffices, reports the first press, puts back what the flags keep, runs every callback once; else touches nothing |
| ConsoleInputs.FirstPressIsEarliest | WinPort/src/APIConsole.cpp:335-354 | What is reported is one plus the first index of the key of the earliest press of a listed key, 0 iff there is none |
| ConsoleInputs.KeptOneByOne | WinPort/src/APIConsole.cpp:340-362 | Which events are put back, in their order: listed keys under one flag, other keys under another, mouse events, and the rest, a callback as a no-op |
| ConsoleInputs.KeysKept | WinPort/src/APIConsole.cpp:340-362 | A key is put back as often as it came, or not at all |
| Calendar.FileTimeToSystemTime | WinPort/src/APITime.cpp:295-348 | **Main result.** For every 64-bit tick count the fields are a real Gregorian date whose plainly counted day number since 1601-01-01 is ticks over a day, with the weekday that follows from tick 0 and the time of day |
| Calendar.WeekdayOfDate | WinPort/src/APITime.cpp:295-348 | **Main result.** The day of the week is the congruence of year, month and day modulo 7, Sunday being 0, for every date that is read |
| Calendar.EpochIsMonday | WinPort/src/APITime.cpp:17-17 | Tick 0 is Monday, 1 January 1601, and nothing else |
| Calendar.UnixEpochIsThursday | WinPort/src/APITime.cpp:295-348 | Tick 116444736000000000 is Thursday, 1 January 1970 |
| Calendar.TicksRoundTrip | WinPort/src/APITime.cpp:132-161 | **Main result.** Converting back gives the tick count rounded down to a millisecond, iff that fits signed 64 bits; else an intermediate overflows |
| Calendar.FieldsRoundTrip | WinPort/src/APITime.cpp:295-348 | **Main result.** Every accepted SYSTEMTIME up to 30828-09-14 02:48:05.477 comes back, 29 February of a common year as 1 March; its ticks fit |
| Calendar.NormalIsReal | WinPort/src/APITime.cpp:121-130 | The guard accepts exactly the real dates and 29 February of common years, which has the ticks of 1 March |
| Calendar.DayFormulaCounts | WinPort/src/APITime.cpp:138-149 | The closed March-based formula counts days with the leap-year rule |
| Calendar.DateOfDay | WinPort/src/APITime.cpp:327-346 | The inverse formulas find the date of any day number |
| Calendar.TicksIncrease | WinPort/src/APITime.cpp:117-161 | Of two real dates and times whose ticks fit, one is before the other iff its ticks are fewer |
| Calendar.NoOverflowIff | WinPort/src/APITime.cpp:138-157 | **Exact bound.** No intermediate leaves int or LONGLONG iff the time is not after 30828-09-14 02:48:05.477 |
| Calendar.LeapDaysStep | WinPort/src/APITime.cpp:36-39 | Leap days counted by quotients grow exactly at the leap years |
| Calendar.CountDaysIncreases | WinPort/src/APITime.cpp:30-39 | Later real dates have larger day counts |
| LocalTime.LocalMinusUTC | WinPort/src/APITime.cpp:191-227 | The bias is the counted difference of the two broken-down times, to the nearest minute if their years differ |
| LocalTime.BiasIsExactIff | WinPort/src/APITime.cpp:211-224 | So across a new year it is exact iff the difference is whole minutes |
| LocalTime.NearestMinuteIs | WinPort/src/APITime.cpp:211-224 | The nearest whole minute, and of two the one nearer to zero |
| LocalTime.BiasFileTime | WinPort/src/APITime.cpp:229-255 | The file time moved by the bias, forwards or back, in 64-bit wrap-around |
| LocalTime.BiasRoundTrip | WinPort/src/APITime.cpp:257-267 | With one bias, to local time and back, and from it and back, is the identity for every file time |
| LocalTime.BiasReachesLocal | WinPort/src/APITime.cpp:191-255 | Applied to an instant's UTC the bias gives its local time, and the other way round |
| Utf7.RoundTripIff | WinPort/src/APIStringCodepages.cpp:351-442 | **Main result.** For every WCHAR string without negative units, decoding undoes encoding iff every unit is at most 0xFFFF (RFC 2152, UTF-7 Definition) |
| Utf7.RoundTrip | WinPort/src/APIStringCodepages.cpp:605-670 | For 16-bit units decoding undoes encoding, from any decoder state outside a run |
| Utf7.RunRoundTrip | WinPort/src/APIStringCodepages.cpp:637-665 | Inside a base64 run the decoder gives the unit still pending and then the rest |
| Utf7.UnitInStep | WinPort/src/APIStringCodepages.cpp:407-426 | After the groups of one more unit the decoder is in step with the encoder again |
| Utf7.DecodesToUnits16 | WinPort/src/APIStringCodepages.cpp:351-442 | Whatever the input, only 16-bit units are decoded |
| Utf7.EncodeIsSevenBit | WinPort/src/APIStringCodepages.cpp:605-670 | Whatever the units, every byte encoded is below 0x80 |
| Utf7.SextetOfBase64 | WinPort/src/APIStringCodepages.cpp:353-363 | The two base64 tables are inverse |
| Utf7.Wcstombs | WinPort/src/APIStringCodepages.cpp:605-670 | With a buffer, -1 exactly when it is shorter than the query result, else the query result and the encoding in dst; nothing past dstlen is touched |
| Utf7.WriteRun | WinPort/src/APIStringCodepages.cpp:631-665 | A base64 run; the check for room for two before padding fails only where the run would not fit anyway |
| Utf7.Mbstowcs | WinPort/src/APIStringCodepages.cpp:351-442 | With a buffer, -1 exactly when it is shorter than the query result, else the query result and the decoded units in dst; nothing past dstlen is touched |
| Utf7.Put | WinPort/src/APIStringCodepages.cpp:327-340 | One element stored or only counted; refused exactly at the end of the buffer |
| Utf7Format.RunIsAlphabet | WinPort/src/APIStringCodepages.cpp:629-666 | **Main result.** A run of units that are not encoded directly is a plus sign, the characters of the alphabet A-Z a-z 0-9 + / at the six-bit digits of the number that the units spell, filled up with zeros, and a minus sign (RFC 2152, UTF-7 Definition) |
| Utf7Format.Base64IsAlphabet | WinPort/src/APIStringCodepages.cpp:607-608 | The encoder's table is that alphabet |
| Utf7Format.DirectCharacters | WinPort/src/APIStringCodepages.cpp:556-570 | Encoded directly are exactly letters, digits, the marks ' ( ) , - . / : ? and +, blank, tab, line ends and NUL |
| Utf7Format.DirectAndPlus | WinPort/src/APIStringCodepages.cpp:615-629 | Those stand for themselves, and a plus sign is followed by a minus sign |
| Utf7Format.EuroSign | WinPort/src/APIStringCodepages.cpp:629-666 | 0x20AC is +IKw- |
| Utf7Format.ReadDirectly | WinPort/src/APIStringCodepages.cpp:373-390 | Outside a run a byte stands for itself, +- for a plus sign |
| Utf7Format.RunEndsAt | WinPort/src/APIStringCodepages.cpp:393-416 | A run ends at a minus sign, which is dropped, or at another byte outside the alphabet, which is not; above 0x7F the unfinished bits stay |
| Utf8.RoundTripIff | WinPort/wineguts/utf8.c:101-189 | **Main result.** Through UTF-8 and back is the identity iff the string is well-formed UTF-16 |
| Utf8.RoundTrip | WinPort/wineguts/utf8.c:101-189 | Through UTF-8 and back gives the scalar values of the string, which is the string without its unpaired surrogates, and that is well-formed |
| Utf8.StrictAcceptsForms | WinPort/wineguts/utf8.c:164-189 | **Main result.** With MB_ERR_INVALID_CHARS the bytes accepted are exactly the strings of shortest forms of values up to 0x10FFFF: nothing overlong, cut off or above, but surrogates, which RFC 3629, section 3, prohibits |
| Utf8.AcceptsWellFormedIff | WinPort/wineguts/utf8.c:164-189 | **Exact condition.** Accepted bytes are well-formed UTF-8 (RFC 3629, section 3) iff no surrogate is among the values read |
| Utf8.SurrogateIsAccepted | WinPort/wineguts/utf8.c:164-189 | Bytes that are accepted and are not well-formed |
| Utf8.BytesRoundTripIff | WinPort/wineguts/utf8.c:101-189 | **Main result.** Through UTF-16 and back is the identity iff the bytes are well-formed UTF-8 |
| Utf8.ReadForms | WinPort/wineguts/utf8.c:164-189 | Every string of shortest forms is read as what it was written from |
| Utf8.StrictAcceptsWellFormed | WinPort/wineguts/utf8.c:51-61 | With WC_ERR_INVALID_CHARS the strings accepted are exactly the well-formed ones |
| Utf8.DecodeUtf8Char | WinPort/wineguts/utf8.c:164-189 | A value up to 0x10FFFF iff the bytes are its shortest form; else how many continuation bytes are swallowed |
| Utf8.FormsPrefixFree | WinPort/wineguts/utf8.c:164-189 | No form begins another, so the value read is unique |
| Utf8.ShapeIsForm | WinPort/wineguts/utf8.c:46-48 | The minimum-value table refuses exactly the overlong spellings |
| Utf8.LengthWcs | WinPort/wineguts/utf8.c:65-97 | The size of the encoding, -2 iff strict and some surrogate is unpaired |
| Utf8.WcsToMbs | WinPort/wineguts/utf8.c:101-161 | -1 iff the buffer is shorter than what precedes any fault, -2 iff a fault is met, else the query result and the bytes |
| Utf8.LengthMbs | WinPort/wineguts/utf8.c:280-303 | The number of units decoded, -2 iff strict and something is ignored |
| Utf8.MbsToWcs | WinPort/wineguts/utf8.c:307-341 | **Exact condition.** A buffer of exactly the query result fails iff ignored bytes follow the last character; shorter ones fail, longer ones succeed |
| Utf8.QueryFallsShort | WinPort/wineguts/utf8.c:307-341 | Two bytes for which a buffer of exactly the query result is refused |
| Utf8.LengthMbsCompose | WinPort/wineguts/utf8.c:192-228 | The number of units of the composed text, -2 iff strict and something is ignored |
| Utf8.MbsToWcsCompose | WinPort/wineguts/utf8.c:232-277 | For every query result n >= 0: n when dstlen >= n, else -1, with the composed text in dst |
| Utf8.ComposingGrows | WinPort/wineguts/utf8.c:232-277 | Composition replaces the last unit and never takes one back |
| Utf8.ComposingNothing | WinPort/wineguts/utf8.c:232-277 | Without composed characters it is the plain conversion |
| Utf8Format.FormSpells | WinPort/wineguts/utf8.c:101-160 | The bytes of a code point by range, and its value as their sum of powers of 64 (RFC 3629, section 3) |
| Utf8Format.UnitsSpell | WinPort/wineguts/utf8.c:50-63 | A unit, or a high and a low surrogate with ten bits each above 0x10000 |
| Utf8Format.PassedOver | WinPort/wineguts/utf8.c:164-189 | What begins no character is passed over with the continuation bytes wanted, as far as they are there, but alone if the text is too short |
| Utf8Format.PairComposes | WinPort/wineguts/utf8.c:231-264 | Two characters that compose give what their composition gives |
| Utf8Format.NothingComposes | WinPort/wineguts/utf8.c:231-264 | ASCII and surrogate pairs join nothing |
| WideToBytes.CpWcsToMbs | WinPort/wineguts/wctomb.c:414-437 | **Main result.** Whichever paths are taken, the query is the least buffer that suffices and success returns it, with the bytes and the default-used flag; sole exception: the short-cut query when some character and the default character take different room, which then counts wrongly |
| CodepageRoundTrip.NoBestFitRoundTrip | WinPort/wineguts/wctomb.c:227-241 | **Main result.** With WC_NO_BEST_FIT_CHARS and no composing, text encoded without resort to the default character decodes to itself, for single- and double-byte pages whose codes are self-delimiting |
| CodepageRoundTrip.OneCharRoundTrip | WinPort/wineguts/mbtowc.c:202-214 | A valid code is read back as its character, and reading goes on right behind it |
| CodepageRoundTrip.StrictRoundTripIff | WinPort/wineguts/mbtowc.c:37-56 | **Exact condition.** Text so encoded is accepted under MB_ERR_INVALID_CHARS iff no private character in it has a code of one byte |
| CodepageTable.CodeOfCharacter | WinPort/wineguts/wctomb.c:60-92 | From tables laid out from a mapping the encoder gives that mapping |
| CodepageTable.SpelledUpperFirst | WinPort/wineguts/wctomb.c:320-341 | One byte, or the upper and then the lower of two |
| CodepageTable.DefaultAsGiven | WinPort/wineguts/wctomb.c:243-256 | The caller's default character is written as given |
| CodepageTable.ComposedPair | WinPort/wineguts/wctomb.c:184-211 | Two characters that compose: their composition if it has a code, else under the flags the default character for both, the first alone, or the first and then the second |
| CodepageTable.CharacterOfCode | WinPort/wineguts/mbtowc.c:195-218 | From tables laid out from a mapping the decoder gives that mapping |
| WideToBytes.ShortcutIsRightIff | WinPort/wineguts/wctomb.c:261-268 | **Exact condition** for a string: the short-cut query is right iff no character without a valid code takes other room than the default character; it never counts too little if the default takes one byte, and never too much if it takes two |
| WideToBytes.ShortcutIsRightForTableIff | WinPort/wineguts/wctomb.c:261-268 | **Exact condition** for a table: it is right for all strings iff that holds of every character |
| WideToBytes.ShortcutMiscounts | WinPort/wineguts/wctomb.c:261-268 | A table, flags and a string for which the short-cut query is wrong |
| WideToBytes.SlowIsFast | WinPort/wineguts/wctomb.c:159-220 | With best fits allowed, no composing and no default of the caller's, the slow path writes what the fast path writes |
| WideToBytes.Length | WinPort/wineguts/wctomb.c:43-92 | The queries count the bytes the slow path will write, and whether it will use the default character |
| WideToBytes.Slow | WinPort/wineguts/wctomb.c:344-410 | -1 exactly when the encoding does not fit; else its size, the bytes in dst, and whether the default character was used |
| WideToBytes.FastDbcs | WinPort/wineguts/wctomb.c:320-341 | -1 exactly when the table encoding does not fit (a two-byte character is never cut); else its size, with the bytes in dst |
| WideToBytes.RawIsMap | WinPort/wineguts/wctomb.c:95-156 | The single-byte encoding is the elementwise table map |
| Unrolled.Convert | WinPort/wineguts/wctomb.c:95-156 | The loop of sixteen with the switch that falls through is the elementwise map, for both directions; too short a buffer is filled and gives -1 |
| Unrolled.Fallthrough | WinPort/wineguts/mbtowc.c:95-116 | Whatever label the switch is entered at, exactly the last n elements are mapped |
| BytesToWide.CpMbsToWcs | WinPort/wineguts/mbtowc.c:269-299 | **Main result.** For both kinds of page, with and without decomposition: -2 iff invalid characters are to be refused and the check refuses, with dst untouched; else -1 exactly when a given buffer is shorter than the query result, else the query result and the converted characters in dst |
| BytesToWide.AcceptsValidIff | WinPort/wineguts/mbtowc.c:165-191 | **Exact condition.** The codes that are converted are all valid iff the check accepts and takes no lead byte and NUL for a pair |
| BytesToWide.NulIsMischecked | WinPort/wineguts/mbtowc.c:165-191 | A page and a text that is accepted although a lead byte is converted to the default character |
| BytesToWide.CheckInvalidChars | WinPort/wineguts/mbtowc.c:37-56 | No byte is left iff every code is valid: no lead byte on its own, no stand-in for the default character, no private character of one byte |
| BytesToWide.CharsOfCodes | WinPort/wineguts/mbtowc.c:195-218 | The codes and the characters correspond one to one |
| BytesToWide.MbsToWcsDbcs | WinPort/wineguts/mbtowc.c:195-218 | The characters of the lead-byte reading, -1 exactly when they do not fit |
| BytesToWide.LengthDbcs | WinPort/wineguts/mbtowc.c:148-163 | The query counts the characters that mbstowcs_dbcs writes |
| BytesToWide.CharsIsMap | WinPort/wineguts/mbtowc.c:58-118 | In a single-byte page the characters are the elementwise table map of the bytes |
| BytesToWide.MbsToWcsDecompose | WinPort/wineguts/mbtowc.c:222-265 | The decomposing variants: the full decompositions in dst, -1 exactly when they do not fit |
| BytesToWide.LengthDecompose | WinPort/wineguts/mbtowc.c:128-134 | The query, which decomposes into four characters of scratch, counts what the decomposing variants write |
| Decompose.WineDecompose | WinPort/wineguts/decompose.c:2218-2244 | **Main result.** For acyclic tables and dstlen >= 1: ends, returns 0 iff the full expansion does not fit and otherwise writes it, and touches nothing else of dst |
| Decompose.ExpandSettles | WinPort/wineguts/decompose.c:2218-2244 | Nothing in a full expansion decomposes any further |
| Decompose.ExpandHasNoNul | WinPort/wineguts/decompose.c:2218-2244 | No character but NUL decomposes into something with a NUL in it |
| DecomposeTable.EntryOfMapping | WinPort/wineguts/decompose.c:2218-2244 | From a table laid out from a mapping a character stands for the two it is mapped to, in that order, for one if the second is zero, for itself if the first is |
| DecomposeTable.ExpansionOfMapping | WinPort/wineguts/decompose.c:2218-2244 | And its full expansion is theirs, one after the other |
| DecomposeTable.CompatCells | WinPort/wineguts/decompose.c:2203-2216 | A compatibility mapping is the range of cells between two offsets, in order |
| Compose.WineCompose | WinPort/wineguts/compose.c:400-410 | **Main result.** The two-level search is the linear scan, all accesses in range |
| Compose.ComposedIsEntry | WinPort/wineguts/compose.c:400-410 | For tables without zero values: (first, second) -> c is an entry iff the scan finds c, and 0 is found iff there is none |
| Compose.HoldsIsCells | WinPort/wineguts/compose.c:400-410 | Said in cells: the header's pair of the second character bounds the pairs of the first and the composition |
| Compose.BinarySearch | WinPort/wineguts/compose.c:388-398 | On a sorted run bisection gives the place that looking at each pair gives, -1 iff the key is absent |
| Collation.CompareWeights | WinPort/wineguts/sortkey.c:215-311 | The two-pointer loop, which ends, computes the comparison of the decomposed strings cut at NUL |
| Collation.CompareIsLex | WinPort/wineguts/sortkey.c:215-311 | **Main result.** For strings without characters the flags treat specially it is the lexicographic comparison of the non-zero weights |
| Collation.PreorderIff | WinPort/wineguts/sortkey.c:215-311 | **Main result, exact condition.** For all flags and every locale whose decompositions are full: comparison of strings is a preorder iff, among the characters that occur in decomposed strings, the dashes weigh the same where both are skipped, and no character is skipped over against a weightless full stop |
| Collation.TablesSettle | WinPort/wineguts/decompose.c:2218-2244 | Decompositions by the code's tables are full, and only NUL gives NUL, so that holds of them |
| Collation.StreamOccurs | WinPort/wineguts/sortkey.c:204-213 | What is compared is made of characters that occur |
| Collation.OwnStream | WinPort/wineguts/sortkey.c:204-213 | And every sequence of those is a string that is its own decomposition |
| Collation.CompareIsKeyOrder | WinPort/wineguts/sortkey.c:215-311 | Then, on characters that occur in decomposed strings, it compares the weights of the ordinary ones, next how many dashes follow the last of them, next how many ignored symbols follow those |
| Collation.IgnoringSymbolsIff | WinPort/wineguts/sortkey.c:238-253 | With SORT_STRINGSORT and NORM_IGNORESYMBOLS: a preorder iff the full stop does not occur, has a weight, or no other character that occurs is a symbol |
| Collation.WordSortIff | WinPort/wineguts/sortkey.c:258-273 | With neither: a preorder iff hyphen and apostrophe weigh the same, if both occur and some ordinary character does, and a full stop that occurs has a weight, if either of them occurs |
| Collation.ComparePreorder | WinPort/wineguts/sortkey.c:313-322 | With SORT_STRINGSORT and without NORM_IGNORESYMBOLS it is a total preorder, with equal weight sequences as its equivalence |
| Collation.CompareReflexive | WinPort/wineguts/sortkey.c:215-311 | A string equals itself, for all flags |
| Collation.CompareAntisymmetric | WinPort/wineguts/sortkey.c:215-311 | Swapping the strings negates the answer, for all flags |
| Collation.DashesDisagree | WinPort/wineguts/sortkey.c:258-273 | For every locale that tells hyphen from apostrophe and every x that is neither: -x equals x and x equals 'x, but -x does not equal 'x |
| Collation.FullStopIsNothing | WinPort/wineguts/sortkey.c:238-309 | For every locale with a weightless full stop: a skipped character equals it, it equals the empty string, the character does not |
| Collation.WeightOrder | WinPort/wineguts/sortkey.c:173-202 | Packed weights compare by class, then case, then diacritic, then primary weight |
| CollationOrder.WeightIsOrder | WinPort/wineguts/sortkey.c:173-202 | **Main result.** Any two characters but the full stop: punctuation before blanks and controls before digits before the rest; then upper case before the rest, unless NORM_IGNORECASE; then byte 1 of the element, unless NORM_IGNORENONSPACE; then its upper half, the character being the element where there is none |
| CollationOrder.OneAgainstOne | WinPort/wineguts/sortkey.c:275-282 | That is how two strings of one character compare |
| CollationOrder.FirstDifferenceDecides | WinPort/wineguts/sortkey.c:275-282 | And how two strings compare that first differ there |
| CollationOrder.SymbolIsPassedOver | WinPort/wineguts/sortkey.c:238-253 | With NORM_IGNORESYMBOLS punctuation and white space count for nothing |
| CollationOrder.DashIsPassedOver | WinPort/wineguts/sortkey.c:258-273 | Without SORT_STRINGSORT a hyphen or an apostrophe counts for nothing against any other character |
| CollationOrder.StreamOfParts | WinPort/wineguts/sortkey.c:227-236 | What is compared is the decompositions, in order |
| CollationOrder.StreamOfOne | WinPort/wineguts/sortkey.c:227-236 | That of one character, and of NUL nothing then |
| CollationOrder.StreamStopsAtNul | WinPort/wineguts/sortkey.c:227-236 | Up to the first NUL under NORM_STOP_ON_NULL |
| Collation.DotIsFirst | WinPort/wineguts/sortkey.c:185-199 | The full stop sorts before every other character, and no other is weightless |
| Collation.IncStrPos | WinPort/wineguts/sortkey.c:204-213 | Drops exactly the first character of what is left of the decomposed string, across the end of a decomposition |
| Collation.SkipWeightless | WinPort/wineguts/sortkey.c:284-309 | What is left after the common part counts iff something in it has weight |
| SortKeys.GetSortKey | WinPort/wineguts/sortkey.c:34-168 | **Main result.** The query is the counted size plus four; a buffer below that plus one gives 0 and is not touched; else dst holds the four sections, separators and terminator, unchanged behind them, and the key's length is returned |
| SortKeys.KeyLength | WinPort/wineguts/sortkey.c:34-168 | **Main result.** The returned length is at most the query result, and equal iff no level-3 character has a zero low byte |
| SortKeyOrder.KeysOrderStrings | WinPort/wineguts/sortkey.c:100-168 | **Main result.** Keys of strings of separated characters, compared byte by byte, are in the order of the strings' 16-bit primary weights, then of their diacritics, case weights and character bytes |
| SortKeyOrder.SeparatedIff | WinPort/wineguts/sortkey.c:128-142 | **Exact condition** on a collation element: keys are in that order, beside whatever separated characters, iff its primary weight is zero or 0x200 and above and its diacritic weight is not 0xFF |
| SortKeyOrder.PrimariesInPairs | WinPort/wineguts/sortkey.c:131-138 | Bytes 2i and 2i + 1 of the first section are the upper and lower byte of the i-th primary weight that is not zero |
| SortKeyOrder.EffectiveOfParts | WinPort/wineguts/sortkey.c:105-127 | The characters that take part, one string after the other |
| SortKeyOrder.EffectiveOfOne | WinPort/wineguts/sortkey.c:105-127 | None of a symbol under NORM_IGNORESYMBOLS, the lower case under NORM_IGNORECASE, nothing from a NUL on under NORM_STOP_ON_NULL |
| SortKeys.CountIsSize | WinPort/wineguts/sortkey.c:43-92 | Sections 0 to 2 have exactly the counted size, section 3 at most, and exactly iff no byte is lost |
| SortKeys.KeyedOne | WinPort/wineguts/sortkey.c:100-159 | A byte written to one section stays in its room and leaves the others alone |
| SortKeys.Measure | WinPort/wineguts/sortkey.c:43-88 | The first pass counts, section by section, what the key may take |
| SortKeys.Fill | WinPort/wineguts/sortkey.c:105-159 | The second pass leaves in each section's place exactly the section, within the room counted, and nothing elsewhere |
| SortKeys.EmitChar | WinPort/wineguts/sortkey.c:116-157 | Appends to each of the four sections one character's contribution and touches nothing else |
| SortKeys.Assembled | WinPort/wineguts/sortkey.c:161-168 | Closed sections in their places are the key, without gap or overlap |
| Registry.ValueRoundTrip | WinPort/src/APIRegistry.cpp:647-743 | **Main result.** What is set is what is queried, for every type: name, type code and the value as restored |
| Registry.RestoredIff | WinPort/src/APIRegistry.cpp:446-499 | **Exact condition.** All bytes are restored iff a number has its size, and wide text is whole characters that survive conversion to bytes and back |
| RegistryFormat.TagsAre | WinPort/src/APIRegistry.cpp:441-510 | The name of each type; other types are their number in hexadecimal |
| RegistryFormat.HexOneByOne | WinPort/src/APIRegistry.cpp:446-458 | Lower-case digits, the highest first and not zero |
| RegistryFormat.NumberFileIs | WinPort/src/APIRegistry.cpp:718-743 | The file of a DWORD: its name, DWORD and the number of its four bytes, low byte first, each on a line |
| RegistryFormat.TextFileIs | WinPort/src/APIRegistry.cpp:718-743 | The files of a text and of a binary value |
| RegistryFormat.EscapedOneByOne | WinPort/src/APIRegistry.cpp:225-247 | Backslash, line feed, return and NUL by a letter after a backslash, all others as they are; a line feed after a NUL that is not the last |
| RegistryFormat.UnescapedOneByOne | WinPort/src/APIRegistry.cpp:249-269 | And back; line ends and NULs that are not escaped are dropped |
| RegistryFormat.BinaryAt | WinPort/src/APIRegistry.cpp:428-439 | Byte j is two hexadecimal digits and a blank at place 3 j + j / 16, behind a line feed if j is a multiple of 16 |
| Registry.WideRoundTrip | WinPort/src/APIRegistry.cpp:461-468 | A block of bytes cut into wide characters and put together again |
| Registry.SetThenQuery | WinPort/src/APIRegistry.cpp:647-743 | The set and query code in sequence, for every type, into a buffer large enough: success, the same name, type code, size and bytes |
| Registry.NameRoundTripIff | WinPort/src/APIRegistry.cpp:662-675 | **Exact condition.** The name comes back iff it holds no line break |
| Registry.UnescapeEscaped | WinPort/src/APIRegistry.cpp:225-269 | **Main result.** Unescaping undoes escaping for every byte string, whatever follows |
| Registry.BinaryRoundTrip | WinPort/src/APIRegistry.cpp:339-439 | Hexadecimal bytes read back, line breaks and all |
| Registry.HexRoundTrip | WinPort/src/APIRegistry.cpp:317-337 | A number printed in hexadecimal reads back |
| Registry.HexIsScanned | WinPort/src/APIRegistry.cpp:317-321 | The same through sscanf with its blanks, signs and 0x |
| Registry.NumberRoundTrip | WinPort/src/APIRegistry.cpp:446-458 | The number and its bytes determine each other |
| Registry.TagRoundTrip | WinPort/src/APIRegistry.cpp:361-426 | No type code is mistaken for another, unnamed ones included |
| Registry.PayloadRoundTrip | WinPort/src/APIRegistry.cpp:441-499 | A payload with its line end reads back as the value, holds no NUL, and has a number in it if its type is one |
| Registry.EscapedHasNoNul | WinPort/src/APIRegistry.cpp:225-247 | Escaped text can be read up to a NUL |
| Registry.RegEscape | WinPort/src/APIRegistry.cpp:225-247 | In-place insertion gives the escaped text |
| Registry.EscapeAt | WinPort/src/APIRegistry.cpp:227-245 | One character in the middle of the string is replaced by its code; what is before and after it stays |
| Registry.RegUnescape | WinPort/src/APIRegistry.cpp:249-269 | In-place erasure gives the unescaped text |
| Registry.SerializeBinary | WinPort/src/APIRegistry.cpp:428-439 | The stream gets two digits and a blank for each byte and a line break before every sixteenth |
| Registry.DeserializeBinary | WinPort/src/APIRegistry.cpp:339-359 | Every pair is counted, with the byte sscanf reads from it; those that fit are stored, and more data is reported iff some do not |
| Registry.DeserializeMB | WinPort/src/APIRegistry.cpp:296-315 | Size always, bytes if they fit, a NUL after them if there is room |
| Registry.DeserializeWide | WinPort/src/APIRegistry.cpp:272-294 | Size always, the converted bytes if they fit, a wide NUL after them if there is room |
| Registry.DeserializeInt | WinPort/src/APIRegistry.cpp:323-337 | The size always; more data iff the buffer is smaller, else the little-endian bytes of the number scanned, and no store if there is none |
| Registry.Deserialize | WinPort/src/APIRegistry.cpp:361-426 | By the tag's text, a tag in hexadecimal digits as binary bytes whatever type it denotes: the tag's type, the value's size in any case, its bytes if they fit, more data iff they do not, and no store without a buffer |
| Registry.SetValue | WinPort/src/APIRegistry.cpp:718-743 | The file holds the name, the type's tag and the payload, each closed by a line end |
| Registry.QueryValue | WinPort/src/APIRegistry.cpp:647-679 | Name, type and value of the parsed file; more data iff the value exceeds the buffer, else the value in it and nothing beyond its size given |
| Registry.GetLine | WinPort/src/APIRegistry.cpp:662-664 | A line up to its delimiter, which is dropped |

## Left out

- Screens with more than 32765 cells a side, whose columns COORD cannot address.
- A console without a backend, and rendering: a backend is taken to be attached and to redraw what it is told to.
- Threads on one ConsoleOutput: each public call is one atomic step, although the backend is told after the lock is released.
- Titles, window info, change ids, WaitForChange, palettes, images and LockedDirectLineAccess of ConsoleOutput: easy or backend-only members.
- Character classes (full width, prefix, suffix) and the registry of composite characters: predicates on characters, and a cell holds its character sequence.
- ConsoleOutputs.ConsoleOutput.WriteStrings: states the refinement for plain characters only; where prefixes, suffixes and joined characters go, which is the screen position written last, ComposeChar states, and the repaint, bounds and termination results cover them.
- ConsoleOutputs.ConsoleOutput.ModifySequenceAt: requires that the tabs end; for plain text on a screen without joiners that is exact, for other text it is asked for every number of columns its characters may take.
- ConsoleOutputs.ConsoleOutput.Session: calls that do not end, or whose rectangles or sizes SHORT cannot hold, are passed over.
- ConsoleOutputs.ConsoleOutput.Scroll: requires that a source that is not inverted has at most 32767 rows and columns; with more the size of the temporary block wraps.
- The backtrace of input events, their translation for it, and wall-clock timeouts: a waiter may give up at any step.
- Deleting a forked queue while another thread still runs callbacks it took from it: the join step forgets them.
- Liveness: that the spin in UnfreezeConsoleOutput or a waiter ever ends.
- Calls into the C library around the calendar core (gmtime, localtime, timegm, clocks) and the DOS and Unix time wrappers.
- Utf8.WcsToMbs: is for 16-bit units; a wide character above 0xFFFF is truncated by the fill.
- Utf8.LengthWcs: is for 16-bit units as well; at a wide character above 0xFFFF it counts four bytes and skips the unit behind it, and if there is none, its count of units left wraps and it reads past the string.
- ConsoleInputs.ConsoleInput.CheckForKeyPress: states what it does with no other thread between its queue calls.
- SortKeyOrder.KeysOrderStrings: characters without a collation element are included if both their bytes are above the separator; for others, whose bytes in the key vary in number, no order is stated.
- Sizes beyond int: buffer lengths and counts of the converters are natural numbers.
- MB_USEGLYPHCHARS: the glyph table takes the place of the other one, and is the same parameter here.
- Compatibility of the tables of decompose.c with the limit of four characters: required, as the comment in the source has it.
- wine_compose_string, wine_fold_string, wine_cp_get_table, the symbol codepage and the fixed-width Unicode codepages: easy members.
- The conversion between wide and multibyte text in registry values is a parameter; the library that converts is not part of this model.
- Registry.DeserializeInt: states nothing about the bytes of a number that does not fit, which sscanf leaves undefined; 0x without digits is read as 0.
- Registry.QueryValue: the name is a string of bytes; its conversion to wide characters and the caller's room for it are not modelled.
- Utf7.Wcstombs: WCHAR is signed, and a negative one would index the table of directly encodable characters below its start, so those are excluded.
- Registry keys, directories, enumeration and file errors: a registry file is the sequence of its bytes.
- A null size pointer together with a binary value in RegQueryValueEx.
