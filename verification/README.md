# tged core in Dafny

A model of the core of `tged`, a terminal text editor written in Rust. It is
written as pure functions over immutable datatypes, with the properties the
editor relies on proved about them. The model covers:

- **Main view.** The line buffer, cursor and scroll state of the main text view
  (`MainView`): typing, Enter, Backspace, the cursor keys and paging. It also
  covers the soft-wrap row arithmetic that places the cursor and drives
  scrolling, search and replace, the key dispatch over both modes, and how
  many rows `draw` paints.
- **Positions and splitting.** The edge-anchored positions (`Pos`) of the
  panels, and the fixed-width string splitter (`splitn_at`) that cuts a line
  into screen rows.
- **Colours.** 24-bit colours and their SGR escape heads.
- **File tree panel.** The directory tree: row counts, the flattened path
  list, the display list, toggling a directory, the dirs-first ordering, and
  navigation with scrolling.
- **Command bar and pop-up box.** The command bar (`Menu`) and the pop-up
  input box (`MsgBox`), which share one line editor, plus the bar's command
  execution and layout.
- **Open-file registry.** `FileMod` and `FileBuf::save`.
- **`#[view]` macro.** The attribute parsing of the procedural macro, the
  `new` it generates, and the frame `resize`.
- **Older text view.** The older generation of the text view
  (src/screen/view.rs), compared operation by operation with the later one.

Text is a sequence of single code units (`seq<char>`). Integer widths of the
source (`u8`, `u16`, `i16`, `u32`) are subset types. Every `usize`/`u16`
subtraction that could underflow, and every index that could fall outside a
vector, is one of two things:

- a `requires` clause, where the model's callers establish it (the lines
  under "Left out" that start with a member's name say where the source's
  callers may not); or
- an `Option` result whose `None` stands for the panic, where a reachable
  input triggers it (see "Findings").

Terminal size, directory listings, file contents, and the text typed into a
pop-up box are parameters.

Modules, one file each:

| module | file | source |
|---|---|---|
| `Wrappers` | wrappers.dfy | `Option` and `Result` |
| `Arith` | arith.dfy | arithmetic helper lemmas |
| `Text` | text.dfy | single-line insert and remove |
| `Geometry` | geometry.dfy | src/view.rs |
| `Colour` | colour.dfy | src/color.rs |
| `SoftWrap` | softwrap.dfy | row arithmetic shared by both text views |
| `TextSearch` | textsearch.dfy | `match_indices` and the search stack |
| `MainEdit` | mainedit.dfy | editing and navigation in src/view/mainview.rs |
| `MainSearch` | mainsearch.dfy | search and replace in src/view/mainview.rs |
| `MainStep` | mainstep.dfy | key dispatch in src/view/mainview.rs |
| `MainDraw` | maindraw.dfy | row painting in src/view/mainview.rs |
| `FileTree` | filetree.dfy | src/view/filetree.rs |
| `LineEdit` | lineedit.dfy | the line editor shared by src/view/menu.rs and src/view/msgbox.rs |
| `Menu` | menu.dfy | src/view/menu.rs |
| `MsgBox` | msgbox.dfy | src/view/msgbox.rs |
| `FileStore` | filestore.dfy | src/file.rs |
| `ViewMacro` | viewmacro.dfy | src/lib.rs |
| `LegacyView` | legacyview.dfy | src/screen/view.rs |

## Model

| member | source | states |
|---|---|---|
| Geometry.ResolveAnchoring | src/view.rs:26-31 | A `Fixed` coordinate is `v + 1` whatever the terminal size; an `Opposite` one stays `v` away from the far edge and moves exactly as much as the terminal grows |
| Geometry.Add | src/view.rs:41-63 | Adding a delta keeps the anchor; zero is the identity; a positive delta adds to the payload; a negative delta subtracts when it fits and otherwise leaves the position unchanged |
| Geometry.AddInverse | src/view.rs:41-63 | A delta applied in full is undone by the opposite delta |
| Geometry.ChunksSpec | src/view.rs:105-124 | With a width above zero, the splitter's chunks concatenate back to the string; all chunks but the last are exactly `mid` long; counts run 0, 1, 2, ...; the chunk count is max(1, ceil(len/mid)); "" gives one empty chunk |
| Geometry.ZeroWidthNeverEnds | src/view.rs:108-123 | With width 0 and a non-empty string, the iterator yields an empty chunk on every call and never ends |
| Colour.FromHex | src/color.rs:74-79 | `from_hex` never fails: the masked channels always fit in a byte |
| Colour.FromHexChannels | src/color.rs:74-79 | The channels are the three low bytes of the number, red most significant |
| Colour.FromHexRoundTrip | src/color.rs:74-79 | Unpacking a packed colour gives the colour back; bits above the low 24 are ignored |
| Colour.Darken | src/color.rs:81-88 | Every channel drops by `v`; callers must keep channels at least `v` |
| Colour.Lighten | src/color.rs:90-97 | Every channel rises by `v`; callers must keep channels at most 255 - v |
| Colour.DarkenLightenInverse | src/color.rs:81-97 | Lightening undoes darkening by the same amount, and the other way round |
| Colour.DecRoundTrip | src/color.rs:66-72 | A channel's decimal rendering is a non-empty digit string that reads back as the channel |
| Colour.HeadRoundTrip | src/color.rs:66-72 | The foreground and background heads parse back to their colour, with selector 38 or 48 |
| Colour.ColorizeParts | src/color.rs:20-25 | A coloured string splits into a background head, a foreground head, the text unchanged, and the reset sequence |
| SoftWrap.RowsIsCeiling | src/view/mainview.rs:239-247 | A line's row count is the least number of width-sized rows that hold it, and at least one |
| SoftWrap.ChunksMatchRows | src/view/mainview.rs:139 | The splitter that paints a line cuts it into exactly as many rows as the cursor arithmetic counts |
| SoftWrap.PreAllLinesSpec | src/view/mainview.rs:233-254 | The cursor row is the rows of the lines between the top of the viewport and the cursor's line, plus `idx / width`; the `idx >= max` guard changes nothing |
| SoftWrap.CursorRowWithinLine | src/view/mainview.rs:249-251 | A cursor inside a line lands on one of that line's rows; at the end of a line that fills its last row, it lands one row below |
| SoftWrap.PlaceCursor | src/view/mainview.rs:76-101 | The loop places the cursor at column `idx % width` and at the row `pre_all_lines` counts |
| TextSearch.MatchIndicesSpec | src/view/mainview.rs:515-524 | Each line's hits are the leftmost non-overlapping occurrences of the pattern, scanned left to right; each hit really is an occurrence |
| TextSearch.MatchListUnique | src/view/mainview.rs:519-521 | Any list meeting that description equals the scan, so the description pins the hits down |
| TextSearch.FindAllSpec | src/view/mainview.rs:515-524 | A (line, column) pair is in the search stack iff the column is a hit of that line; the stack is in strict line-then-column order |
| TextSearch.FindAllSound | src/view/mainview.rs:409-412 | Every stacked hit lies inside its line and holds the pattern, so the replacement range of a stacked hit is in bounds |
| TextSearch.NextPrevInverse | src/view/mainview.rs:448-461 | Next and previous wrap around the stack and undo each other |
| TextSearch.NextNIsAdd | src/view/mainview.rs:458-461 | `k` steps forward land on `(i + k) mod n` |
| MainEdit.LineInc | src/view/mainview.rs:257-266 | One line down; scroll grows by one exactly when the cursor row plus 4 exceeds the view height; nothing else changes |
| MainEdit.LineDec | src/view/mainview.rs:269-278 | One line up; scroll drops by one exactly when the view is scrolled and the cursor row is below 4; nothing else changes |
| MainEdit.LineIncKeepsTop | src/view/mainview.rs:257-266 | Moving down never leaves the cursor's line above the viewport |
| MainEdit.LineDecKeepsTop | src/view/mainview.rs:269-278 | Moving up keeps the cursor's line in the viewport iff it was below the top line, or on it at most three rows down |
| MainEdit.Push | src/view/mainview.rs:281-288 | The unit is inserted at the cursor of the current line, creating a line in an empty buffer; the cursor moves past it; all other lines stay |
| MainEdit.PushStr | src/view/mainview.rs:291-295 | The string is inserted at the cursor and the cursor moves past it; all other lines stay |
| MainEdit.PushStrIsPushEach | src/view/mainview.rs:281-295 | Inserting a string at once is the same as typing its units one by one |
| MainEdit.PushLine | src/view/mainview.rs:298-311 | Enter cuts the line at the cursor; the two halves concatenate to the old line; the lines around them keep their places; the cursor goes to the start of the new line |
| MainEdit.Delete | src/view/mainview.rs:314-336 | Backspace does nothing at (0,0); at column 0 it joins the line onto the one above and puts the cursor at the join; otherwise it removes the unit before the cursor |
| MainEdit.PushThenDelete | src/view/mainview.rs:281-336 | Typing a unit and deleting it restores the buffer and the cursor |
| MainEdit.EnterThenDelete | src/view/mainview.rs:298-336 | Enter followed by Backspace restores the lines, the line and the column |
| MainEdit.JoinSplit | src/view/mainview.rs:302-305 | Joining the two halves of a split line gives the lines back |
| MainEdit.Up | src/view/mainview.rs:339-350 | One line up when there is one, with the column clamped to that line; the text is unchanged and the cursor stays valid |
| MainEdit.Down | src/view/mainview.rs:353-364 | One line down when there is one, with the column clamped to that line; the text is unchanged and the cursor stays valid |
| MainEdit.DownThenUp | src/view/mainview.rs:339-364 | Down then Up returns to the same line, with the column clamped by both lines visited |
| MainEdit.Left | src/view/mainview.rs:367-371 | One column left, not past column 0 |
| MainEdit.Right | src/view/mainview.rs:374-379 | One column right, not past the end of the line |
| MainEdit.LeftRightInverse | src/view/mainview.rs:367-389 | Left and Right undo each other away from the line ends; Right at End and Left at Home do nothing |
| MainEdit.Home | src/view/mainview.rs:388-390 | The cursor goes to column 0 and stays valid |
| MainEdit.End | src/view/mainview.rs:382-385 | The cursor goes to the end of its line and stays valid |
| MainEdit.SetPos | src/view/mainview.rs:393-396 | The cursor goes to the given (line, column) and nothing else changes, the scroll offset included |
| MainEdit.SetPosLaws | src/view/mainview.rs:393-396 | Moving to where the cursor is changes nothing; of two moves the last wins; the cursor lands in the text iff the position is a column of an existing line |
| MainEdit.UpN | src/view/mainview.rs:599-603 | PageUp moves `n` lines up, stopping at the first line |
| MainEdit.DownN | src/view/mainview.rs:605-609 | PageDown moves `n` lines down, stopping at the last line |
| MainSearch.OnHitInText | src/view/mainview.rs:409-412 | In a valid search state the cursor sits on an occurrence of the pattern inside the text |
| MainSearch.EnterSearchAsWritten | src/view/mainview.rs:504-545 | Entering search panics exactly when the pattern has hits but no more than the stale selection index |
| MainSearch.EnterSearch | src/view/mainview.rs:504-545 | An empty reply does nothing; a pattern without hits is only stored; otherwise the view enters search with the buffer's hit list and the cursor on the selected hit, and the search state is valid |
| MainSearch.EnterSearchAgrees | src/view/mainview.rs:504-545 | Wherever the code as written does not panic, the corrected entry does the same |
| MainSearch.Splice | src/view/mainview.rs:411-412 | `replace_range` keeps the text before the range, puts the replacement in, and keeps the text after |
| MainSearch.SpliceUndo | src/view/mainview.rs:411-412 | Replacing the replacement by the original text undoes a splice |
| MainSearch.ReplaceAsWritten | src/view/mainview.rs:401-442 | Replace panics exactly when the pattern-sized range at the cursor leaves the line; it never moves the cursor or the selection |
| MainSearch.Replace | src/view/mainview.rs:401-442 | The pattern at the cursor becomes the reply and nothing else changes; the view leaves search iff no hit remains; the search state stays valid |
| MainSearch.ReplaceAgreesOnText | src/view/mainview.rs:401-442 | From a valid state, the first replacement rewrites the same text and builds the same hit list and mode in both versions |
| MainSearch.LeaveSearch | src/view/mainview.rs:443-447 | Enter returns to normal mode and keeps the cursor |
| MainSearch.SearchPrev | src/view/mainview.rs:448-456 | Selects the previous hit, wrapping to the last, and moves the cursor onto it |
| MainSearch.SearchNext | src/view/mainview.rs:458-461 | Selects the next hit, wrapping to the first, and moves the cursor onto it |
| MainSearch.SearchHome | src/view/mainview.rs:463-465 | Moves the cursor to the first hit without changing the selection |
| MainSearch.SearchEnd | src/view/mainview.rs:467-470 | Moves the cursor to the last hit without changing the selection |
| MainSearch.SearchStepsKeepState | src/view/mainview.rs:448-470 | Stepping keeps the search state valid; Home and End reach the earliest and the latest hit in the buffer |
| MainStep.NormalKey | src/view/mainview.rs:501-609 | Every normal-mode key keeps the view valid, on an empty buffer too: there Enter and Tab first give the buffer its line, as typing a character does, and the moves do nothing; only Ctrl+f can leave normal mode |
| MainStep.NormalKeyAsWritten | src/view/mainview.rs:290-388 | As written, Enter, Tab, Right, End, Down and PageDown panic exactly when the buffer is empty; otherwise the key is the corrected dispatch |
| MainStep.EmptyBufferEnterPanics | src/view/mainview.rs:280-306 | On an empty buffer, typing a character works but Enter panics; the corrected Enter leaves two empty lines |
| MainStep.SearchKey | src/view/mainview.rs:398-499 | Every search-mode key keeps the view valid |
| MainStep.Step | src/view/mainview.rs:69-74 | Dispatching on the mode keeps the view valid, empty buffer included; keys other than Ctrl+f never change the text in search mode |
| MainStep.Run | src/view/mainview.rs:69-74 | Any sequence of keys keeps the view valid, and a buffer that has a line never loses it |
| MainStep.StepKeepsLines | src/view/mainview.rs:314-336 | No key empties a buffer that has a line |
| MainStep.RunStaysNormal | src/view/mainview.rs:501-609 | Without Ctrl+f, a run of keys starting in normal mode stays in normal mode |
| MainDraw.ExpandSpec | src/view/mainview.rs:106-116 | The display form has no tab or carriage return; it is three units longer per tab; a plain line is unchanged |
| MainDraw.PlainRowsAgree | src/view/mainview.rs:106-139 | On a line without tabs, carriage returns included, the rows painted are the rows counted for the cursor |
| MainDraw.TabRowsDisagree | src/view/mainview.rs:106-139 | A tab is painted on more rows than the cursor arithmetic counts |
| MainDraw.PaintedRows | src/view/mainview.rs:136-181 | `draw` paints the rows of the expanded lines from the scroll offset, up to max(1, view height) of them |
| FileTree.Label | src/view/filetree.rs:132-150 | A row's text is three spaces, then two per nesting level, then the name |
| FileTree.FlattenSpec | src/view/filetree.rs:455-468 | `flatten` lists one path per visible row, and row `i` holds the path of the item on row `i` |
| FileTree.DisplayRowsSpec | src/view/filetree.rs:132-150 | The display list has one row per visible item, in the same order |
| FileTree.RowsAgree | src/view/filetree.rs:305-321 | `len`, `flatten` and the display list agree row by row |
| FileTree.FindIn | src/view/filetree.rs:226-242 | What the search finds is a directory with the requested path |
| FileTree.Flip | src/view/filetree.rs:96-130 | `open` sets the flag and takes the fresh listing, directories first; `close` clears the flag and keeps the children |
| FileTree.ToggleInSpec | src/view/filetree.rs:393-403 | Toggling happens iff the search finds a directory; otherwise nothing changes; afterwards the search finds the flipped directory |
| FileTree.ToggleInTwice | src/view/filetree.rs:96-130 | Closing a directory and reopening it with the same children (in directory-first order, as `open` leaves them) restores the tree |
| FileTree.VisibleDirFound | src/view/filetree.rs:387-403 | A directory on a visible row is found by the path search |
| FileTree.OrderListingSpec | src/view/filetree.rs:160 | The ordered listing is a permutation of the listing with every directory before every file |
| FileTree.OrderListingKeepsOrdered | src/view/filetree.rs:160 | A listing already in directory-first order is left as it is |
| FileTree.TreeLineInc | src/view/filetree.rs:430-439 | One row down; scroll grows by one exactly when the row offset plus 4 exceeds the height |
| FileTree.TreeLineDec | src/view/filetree.rs:442-451 | One row up; scroll drops by one exactly when scrolled and the row offset is below 4 |
| FileTree.TreeScrollKeepsCursor | src/view/filetree.rs:430-451 | The tree's scroll rules keep the cursor row inside the panel |
| FileTree.TreeUp | src/view/filetree.rs:412-418 | One row up, not past the first, keeping the cursor on a row |
| FileTree.TreeDownAsWritten | src/view/filetree.rs:421-427 | Down panics exactly when the tree has no rows |
| FileTree.TreeDown | src/view/filetree.rs:421-427 | One row down, not past the last, keeping the cursor on a row |
| FileTree.TreeDownAgrees | src/view/filetree.rs:421-427 | On a non-empty tree, the corrected Down is the code as written |
| FileTree.EnterAsWritten | src/view/filetree.rs:387-409 | Enter panics exactly when the cursor row does not exist (an empty tree); otherwise a file row asks to load the row's file and switch to the main view, and a directory row toggles with the cursor and scroll kept |
| FileTree.Enter | src/view/filetree.rs:387-409 | On a file row, Enter asks to load the row's file and switch to the main view; on a directory row, it toggles and keeps the cursor and scroll; without a row it does nothing |
| FileTree.EnterAgrees | src/view/filetree.rs:387-409 | Wherever Enter as written does not panic, the corrected Enter is the same |
| FileTree.EmptyTreeEnterPanics | src/view/filetree.rs:391 | On an empty tree, which is a valid state, Enter panics as written and does nothing when corrected |
| FileTree.EnterTogglesRowDir | src/view/filetree.rs:387-403 | Enter on a directory row flips a directory with that row's path |
| FileTree.ReloadAsWritten | src/view/filetree.rs:280-303 | On a changed directory, the listing is reread and ordered and the cursor goes to row 0, but the scroll is kept |
| FileTree.Reload | src/view/filetree.rs:280-303 | The corrected reload also scrolls to the top and keeps the tree state valid |
| FileTree.CursorYAsWritten | src/view/filetree.rs:342-348 | The cursor row panics exactly when the scroll is past the cursor row or the `u16` sum overflows; otherwise it is the start row plus the row offset plus one |
| LineEdit.Insert | src/view/menu.rs:96-100 | A character is inserted at the cursor while the text is below the cap; at the cap nothing changes |
| LineEdit.DeleteBackAsWritten | src/view/menu.rs:102-107 | Backspace panics exactly when the text is non-empty and the cursor is at its start |
| LineEdit.DeleteBack | src/view/menu.rs:102-107 | Backspace removes the character before the cursor and does nothing at the start |
| LineEdit.DeleteAgrees | src/view/menu.rs:102-107 | Wherever the code as written does not panic, the corrected Backspace does the same |
| LineEdit.InsertThenDelete | src/view/menu.rs:96-107 | Backspace undoes an accepted keystroke |
| LineEdit.MoveLeft | src/view/menu.rs:109-113 | One position back, not past the start |
| LineEdit.MoveRight | src/view/menu.rs:115-119 | One position on, not past the end |
| LineEdit.LeftRightInverse | src/view/menu.rs:109-119 | Left and Right undo each other away from the ends |
| LineEdit.Edit | src/view/menu.rs:92-121 | Editing keeps the cursor in the text and never takes the text past the cap |
| LineEdit.TypingAppends | src/view/msgbox.rs:36-41 | Typing characters that fit appends exactly those characters and leaves the cursor at the end |
| Menu.InputCapAsWritten | src/view/menu.rs:96 | The cap panics exactly on a bar narrower than 34 columns; otherwise it is the bar width minus twice the offset minus 4 |
| Menu.InputCap | src/view/menu.rs:96 | The longest command is the bar width minus twice the offset minus 4, and 0 on a bar too narrow for one |
| Menu.InputCapAgrees | src/view/menu.rs:96 | Wherever the cap as written does not panic, it is the corrected cap |
| Menu.TrimSpec | src/view/menu.rs:143 | The trimmed command has no white space at either end and is the input with its surrounding white space cut off |
| Menu.TrimPadded | src/view/menu.rs:143 | A command keeps its meaning whatever white space surrounds it |
| Menu.Exec | src/view/menu.rs:142-163 | The input is cleared; Quit is requested iff the command is `quit`; Save is requested iff it is `save` and the buffer has a name; a message is sent unless quitting |
| Menu.QuitWithBlanks | src/view/menu.rs:142-163 | `quit` with blanks around it still quits |
| Menu.MenuKey | src/view/menu.rs:88-121 | Enter runs the command; any other key edits the input under the cap; on a bar too narrow for a command a typed character changes nothing |
| Menu.MenuKeyAsWritten | src/view/menu.rs:88-121 | As written, a key panics exactly when it is a typed character on a bar narrower than 34 columns, or Backspace at the start of a non-empty command; otherwise it is the corrected key handler |
| Menu.MenuBackspaceAtStartPanics | src/view/menu.rs:102-107 | Backspace at the start of a non-empty command panics on a wide bar too; the corrected bar leaves the command alone |
| Menu.NarrowBarTypingPanics | src/view/menu.rs:96 | Typing into a bar 20 columns wide panics; the corrected bar ignores the key |
| Menu.Update | src/view/menu.rs:35-70 | While focused, a received message is appended with the cursor moved on by its length and the command is shown; otherwise the message (or the hint) is shown and the input is kept |
| Menu.UnknownCommandEchoes | src/view/menu.rs:61-65 | An unknown command's message comes back into the focused bar's input, with the cursor at its end |
| Menu.Pad | src/view/menu.rs:72-84 | Left alignment keeps the text and fills the field with spaces |
| Menu.BarLayout | src/view/menu.rs:72-84 | On a wide bar, text that fits makes the bar two columns short of the width, with the text right after the prompt |
| Menu.CursorX | src/view/menu.rs:123-129 | The cursor column is the offset, the prompt and the cursor index right of the bar's start |
| Menu.CursorFollowsEdits | src/view/menu.rs:92-129 | The cursor column moves one right on an accepted character or Right, and one left on Left or Backspace |
| MsgBox.BoxCap | src/view/msgbox.rs:27 | The box accepts lines two columns shorter than its width, so a full line ends before the right frame |
| MsgBox.BoxKey | src/view/msgbox.rs:28-62 | Esc empties the line and unlocks; Enter unlocks and keeps the line; any other key edits the line and keeps the box locked |
| MsgBox.LoopSpec | src/view/msgbox.rs:141-164 | The box answers iff Enter or Esc arrives, and the answer never exceeds the cap |
| MsgBox.EscAnswersEmpty | src/view/msgbox.rs:29-32 | Esc as the first key answers with an empty line |
| MsgBox.LoopEdits | src/view/msgbox.rs:141-164 | Until a closing key, the wait loop is the line editor |
| MsgBox.TypedLineAnswered | src/view/msgbox.rs:141-164 | Typing a line that fits and pressing Enter answers with that line |
| MsgBox.BoxAnswerFits | src/view/msgbox.rs:25-62 | A box answers iff Enter or Esc arrives, and its answer fits between its left and right frames |
| MsgBox.TypedLineFits | src/view/msgbox.rs:25-62 | A typed line that fits between the frames, then Enter, is the box's answer |
| MsgBox.CursorAt | src/view/msgbox.rs:65-70 | The cursor is right of the left frame, at the cursor index counted from the column after it, one row below the title |
| MsgBox.CursorInsideFrame | src/view/msgbox.rs:25-70 | While the box waits, its cursor stays strictly between the frames, and moves one column on for an accepted character or Right and one back for Left or Backspace |
| MsgBox.AsI16 | src/view/msgbox.rs:121-123 | `as i16` is congruent to the size modulo 2^16 |
| MsgBox.DefaultPos | src/view/msgbox.rs:120-134 | The default box is `2 * (title/2 + 10)` columns wide, centred on the middle column, and spans the rows from one above the middle row to two below it |
| MsgBox.DefaultPosCentred | src/view/msgbox.rs:120-134 | The default box covers the terminal's middle cell, and starts on the screen when the terminal is wide enough for it and at least two rows high |
| FileStore.SaveAsWritten | src/file.rs:61-65 | A buffer opened read-only fails with an error; otherwise the file starts with the saved text and a shorter text leaves the old file's tail after it |
| FileStore.Save | src/file.rs:61-65 | The corrected save still fails on a read-only buffer, and otherwise leaves exactly the saved text on disk |
| FileStore.SaveAsWrittenExact | src/file.rs:61-65 | As written, the file holds exactly the saved text iff the text is at least as long as what the file held |
| FileStore.SavesAgree | src/file.rs:61-65 | The two saves agree iff the buffer is read-only or the text is at least as long as what the file held |
| FileStore.ReadOnlySaveFails | src/file.rs:31-36 | A buffer opened without write access cannot be saved by either save |
| FileStore.New | src/file.rs:84-90 | A new registry holds nothing, has count 0, has no current file, and is valid |
| FileStore.Insert | src/file.rs:92-96 | The buffer is stored under the next id; the stored buffers and the current file are kept; validity is kept |
| FileStore.InsertFresh | src/file.rs:92-96 | Inserting adds exactly one fresh id |
| FileStore.FromBufs | src/file.rs:135-150 | Buffers get ids in argument order and the first is current; the result is valid iff there is at least one buffer |
| FileStore.Curr | src/file.rs:98-107 | The current buffer exists iff the current id names a stored buffer, always so in a valid registry |
| FileStore.Shift | src/file.rs:128-132 | Moves to the next id, wrapping to 0, and keeps the registry valid |
| FileStore.ShiftNIsNextN | src/file.rs:128-132 | `k` shifts advance the current id by `k` modulo the count |
| FileStore.ShiftCycle | src/file.rs:128-132 | As many shifts as there are files come back to the start |
| ViewMacro.GetVal | src/lib.rs:496-522 | A literal under any number of minus signs is accepted iff it fits in `i16`, and its sign follows the parity of the minus signs; other forms get their error |
| ViewMacro.GetUnsignedVal | src/lib.rs:524-540 | Only a bare literal that fits in `u8` is accepted; a unary operator is refused |
| ViewMacro.ParsePosTuple | src/lib.rs:451-471 | Exactly a pair of accepted signed literals is accepted; any other arity is refused |
| ViewMacro.ParseColorTuple | src/lib.rs:473-494 | Exactly a triple of accepted byte literals is accepted, as the colour they spell |
| ViewMacro.ToPos | src/lib.rs:337-353 | Zero is refused; `n > 0` becomes `Fixed(n - 1)`; `n < 0` becomes `Opposite(-n - 1)` |
| ViewMacro.ToPosResolves | src/lib.rs:337-353 | Once resolved, `n > 0` is the `n`-th row or column and `n < 0` counts back from the far edge |
| ViewMacro.Coords | src/lib.rs:310-365 | A `start` or `end` value is accepted iff it is a pair with no zero coordinate |
| ViewMacro.ParseAttrs | src/lib.rs:304-449 | Succeeds iff the loop accepts every attribute and saw both `start` and `end`; missing colours get their defaults |
| ViewMacro.TakeAllSpec | src/lib.rs:304-426 | The attribute loop succeeds iff every attribute is acceptable and no name is seen twice; it counts each name |
| ViewMacro.ParseAttrsSpec | src/lib.rs:304-449 | The view compiles iff every attribute is acceptable, `start` and `end` appear once each, and the others at most once; the view is silent iff `silent` appears |
| ViewMacro.New | src/lib.rs:235-246 | The generated constructor takes the configured frame, colours and silence; it is unlocked and shown |
| ViewMacro.CompiledView | src/lib.rs:212-246 | A view compiled from its attributes starts unlocked and shown at the given `start` and `end`, silent iff `silent` was written, with the given or default colours; a non-empty frame stays non-empty after any resize |
| ViewMacro.Axis | src/lib.rs:223-231 | An axis takes the moved ends iff they stay in order (or did not move); otherwise it keeps the old ends; an ordered axis stays ordered |
| ViewMacro.Resize | src/lib.rs:215-232 | Each axis is moved or reverted independently; nothing else changes |
| ViewMacro.ResizeKeepsFrame | src/lib.rs:215-232 | A frame non-empty on both axes stays so after any resize; a zero resize changes nothing |
| LegacyView.Unwrap | src/screen/view.rs:19-26 | The older `unwrap` is the payload, or the distance back from the far edge, with no 1-based shift |
| LegacyView.UnwrapIsResolveLessOne | src/screen/view.rs:19-26 | The older `unwrap` is one less than the later one wherever the later one is defined |
| LegacyView.New | src/screen/view.rs:57-70 | A new view holds one empty line with the cursor at its start, not scrolled |
| LegacyView.LineInc | src/screen/view.rs:143-153 | One line down; scroll grows by one exactly when the cursor row plus 4 exceeds the height |
| LegacyView.LineDec | src/screen/view.rs:155-165 | One line up; scroll drops by one exactly when scrolled and the cursor row is below 4 |
| LegacyView.LineStepsAgree | src/screen/view.rs:143-165 | The scrolling rule is the later view's |
| LegacyView.Push | src/screen/view.rs:167-170 | The unit is inserted at the cursor and the cursor moves past it; the other lines stay |
| LegacyView.PushAgrees | src/screen/view.rs:167-170 | Typing a unit behaves as in the later view |
| LegacyView.PushStr | src/screen/view.rs:172-175 | The string is appended to the end of the cursor's line, whatever the column, and the column still advances by its length |
| LegacyView.PushStrAtEndAgrees | src/screen/view.rs:172-175 | With the cursor at the end of the line, this agrees with the later view's insertion at the cursor |
| LegacyView.PushStrMidLine | src/screen/view.rs:172-175 | Pasting `x` at the start of `ab` gives `abx` with the cursor after the `a`, where the later view gives `xab` |
| LegacyView.PushLine | src/screen/view.rs:177-188 | Enter cuts the line at the cursor into two halves that concatenate to it, and the cursor moves to the start of the new line |
| LegacyView.PushLineAgrees | src/screen/view.rs:177-188 | Enter behaves as in the later view, scroll included |
| LegacyView.Delete | src/screen/view.rs:190-206 | At column 0 of a later line, Backspace removes that line with its text and moves the cursor to the end of the line above; otherwise it removes the unit before the cursor |
| LegacyView.DeleteAgreesInLine | src/screen/view.rs:190-206 | Inside a line, and at (0,0), Backspace behaves as in the later view |
| LegacyView.DeleteAtLineStart | src/screen/view.rs:190-206 | At the start of a later line, the two views leave the same lines iff the deleted line is empty; the cursor lands in the same place |
| LegacyView.EnterThenDeleteLoses | src/screen/view.rs:177-206 | Enter in the middle of `ab` and then Backspace leaves `a`; the later view gives back `ab` |
| LegacyView.Up | src/screen/view.rs:208-218 | One line up when there is one, with the column clamped to that line |
| LegacyView.Down | src/screen/view.rs:220-230 | One line down when there is one, with the column clamped to that line |
| LegacyView.Left | src/screen/view.rs:232-236 | One column left, not past column 0 |
| LegacyView.Right | src/screen/view.rs:238-242 | One column right, not past the end of the line |
| LegacyView.MovesAgree | src/screen/view.rs:208-242 | The four cursor keys behave as in the later view, scroll included |
| LegacyView.SetCursor | src/screen/view.rs:244-267 | The cursor goes to column `idx % width` and to the row `line_inc` and `line_dec` measure |

## Left out

- Terminal I/O is not modelled:
  - escape sequences, `print!`, cursor movement;
  - the `draw` and `refresh` bodies, except the row arithmetic of `MainView::draw`;
  - colours of the painted rows and the line-number gutter.
- The key-reader and resize threads and the channel loop of `main` are not modelled: they are concurrency and process I/O.
- Filesystem effects are inputs:
  - directory listings, file contents, and modification-time polling;
  - `FileBuf::new` and the reading it does;
  - `insert_from_path`.
  - `FileStore.FileBuf` holds the disk contents as a plain field.
- `FileMod` methods that the main view calls are not part of this model, because their bodies are not in the file read: `shift_to`, `rshift`, `curr_id`, `set_name`, `is_dirty`. The F6, F7 and F8 keys and the number-box switch are therefore left out.
- Ctrl+s in the main view (the save prompt) is not modelled. Only `FileBuf::save` itself is.
- `FileStore.Save`: the main view's save prompt (src/view/mainview.rs:561) and the bar's `save` command (src/view/menu.rs:152) both unwrap the `io::Result`, so a save of a read-only buffer ends the program there; the model returns the error and stops at that point.
- The status messages that `MainView` sends to the bar in search mode are not modelled.
- The order of entries inside the directory group and inside the file group of a listing is not modelled: `sort_unstable_by_key` leaves it unspecified. The model keeps the listing's own order.
- Dir labels:
  - The colour escapes and the icon in a directory's label are not modelled.
  - `FileTree.Flip` keeps the name unchanged, where `open`/`close` rebuild the label from the same path.
- `FileTree.Enter`:
  - reads whether a row is a directory from the tree, where the source asks the disk with `path.is_dir()` (src/view/filetree.rs:392). That call follows symbolic links and the listing's `file_type` does not, so on a link to a directory the source toggles nothing and loads nothing, where the model asks to load it.
  - does not state that the cursor stays on the toggled directory's row. The tree does not enforce unique paths, so the search may flip an earlier directory with the same path.
  - emits the file's path where the source sends the id that `insert_from_path` returns.
- Text units:
  - Text is single code units.
  - The byte offsets of `match_indices` on a UTF-8 string and the UTF-16 cursor of the main view are treated as the same index.
  - Tab and carriage-return expansion is modelled for painting only.
- `MsgBox.Loop`: `wait` returns `input.parse::<T>()`. The model returns the line, and parsing into the caller's type is left to the caller.
- Zero text width: `get_vpos_max` (src/view/mainview.rs:228-230, and its older twin) can be 0 on a panel too narrow for text, and then `set_cursor` and `pre_all_lines` divide by zero (`idx / max`, `idx % max`). Every member that takes the text width (in `SoftWrap`, `MainEdit`, `MainStep`, `MainDraw` and `LegacyView`) requires it to be positive and does not model that panic.
- `MsgBox.DefaultPos` stops before `Pos::try_from(i16)`. That conversion is not part of the files read.
- `ViewMacro`: a zero coordinate is refused as `ZeroCoordinate`. In a build with overflow checks, the `abs - 1` at src/lib.rs:337-353 would panic in the macro before the zero check; either way the attribute list is refused.
- `ViewMacro`: the token streams the macro emits are not modelled. Only the validation and the resulting configuration and frame are.
- `Geometry.Add`: a positive delta that would overflow the `u16` payload is excluded by a `requires`. The source panics there in debug builds.
- `LegacyView`: the older `SplitNAt::next` (src/screen/view.rs:353-373) is the same code as src/view.rs:105-124, and `Geometry.SplitNext` stands for both. Its `draw` is not modelled at all, whereas the row arithmetic of the later `draw` is (`MainDraw.PaintedRows`).
- src/screen.rs: the older screen loop and its `register` id counter are not modelled.

## Findings

| source | as written | input that shows it | evidently intended | confidence | as-written member | corrected member |
|---|---|---|---|---|---|---|
| src/view/menu.rs:102-107 | Backspace on a non-empty input decrements `input_idx` first, which underflows at index 0; the pop-up box has the same code at src/view/msgbox.rs:42-47 | type `a`, Left, Backspace | do nothing at the start of the input | not executed; high | LineEdit.DeleteBackAsWritten | LineEdit.DeleteBack |
| src/view/mainview.rs:527-530 | entering search jumps to `search_stack[search_idx]` with the index left from the previous search | three hits of `ab` in `ab ab ab`, two steps forward, Enter, then search `ab a` (one hit): index 2 of a 1-element stack | select a hit that exists | not executed; high | MainSearch.EnterSearchAsWritten | MainSearch.EnterSearch |
| src/view/mainview.rs:407-431 | after a replacement the cursor stays put, so the next replacement rewrites whatever follows it | `abab`, second hit selected, replace `ab` by `x`, then replace again: range [2,4) of a 3-unit line | move the cursor onto a remaining hit | not executed; high | MainSearch.ReplaceAsWritten | MainSearch.Replace |
| src/view/filetree.rs:300-302 | a reload resets `curr_line` to 0 but keeps `scroll`, and `set_cursor` computes `curr_line - scroll` | reload while scrolled by 1 | reset `scroll` as well | not executed; medium | FileTree.ReloadAsWritten | FileTree.Reload |
| src/view/filetree.rs:424 | Down computes `self.len() - 1`, which underflows on an empty listing | Down in an empty directory | stay on row 0 | not executed; high | FileTree.TreeDownAsWritten | FileTree.TreeDown |
| src/file.rs:61-65 | save rewinds and writes without truncating | save `hi` over `hello world`: the file holds `hillo world` | the file holds exactly the saved text | not executed; high | FileStore.SaveAsWritten | FileStore.Save |
| src/view/filetree.rs:391 | Enter takes the cursor row's path with `flat.get(curr_line).unwrap()`, which panics when the tree has no rows | Enter in an empty directory | do nothing without a row | not executed; high | FileTree.EnterAsWritten | FileTree.Enter |
| src/view/mainview.rs:298-302 | Enter indexes `content[line]` although `push` shows the buffer may be empty; Tab, Right, End, Down and PageDown do the same | Enter in an empty buffer | give the buffer its line first, as `push` does | not executed; medium | MainStep.NormalKeyAsWritten | MainStep.NormalKey |
| src/view/menu.rs:96 | the cap `max as usize - 2 * offset - 4` underflows on a bar narrower than 34 columns | type a character into a bar 20 columns wide | accept nothing on a bar too narrow for a command | not executed; medium | Menu.MenuKeyAsWritten | Menu.MenuKey |
| src/screen/view.rs:190-206 | Backspace at column 0 removes the line and its text | Enter in the middle of `ab`, then Backspace: `a` is left | join the line onto the one above, as the later view does | not executed; medium | LegacyView.Delete | MainEdit.Delete |
| src/screen/view.rs:172-175 | pasting appends at the end of the line but moves the cursor as if the text went in at the cursor | paste `x` at the start of `ab`: `abx`, cursor after `a` | insert at the cursor, as the later view does | not executed; medium | LegacyView.PushStr | MainEdit.PushStr |

The counterexamples are proved as the lemmas listed below:

- `LineEdit.BackspaceAtStartPanics` (with `Menu.MenuBackspaceAtStartPanics` for the bar)
- `MainSearch.StaleSelectionPanics`
- `MainSearch.SecondReplacePanics`
- `FileTree.ReloadWhileScrolledPanics` (with `FileTree.CursorYAsWritten`)
- `FileTree.EmptyTreeDownPanics`
- `FileStore.ShorterSaveKeepsTail`
- `FileTree.EmptyTreeEnterPanics`
- `MainStep.EmptyBufferEnterPanics`
- `Menu.NarrowBarTypingPanics`
- `LegacyView.EnterThenDeleteLoses`
- `LegacyView.PushStrMidLine`

The command bar and the box use `LineEdit.DeleteBack`. The key dispatch uses `MainSearch.EnterSearch`, `MainSearch.Replace` and `MainStep.NormalKey`. The bar uses `Menu.MenuKey`.
