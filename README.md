# Editing core of a line-array text editor, in Dafny

This project models the editing core of a small TypeScript text editor:

- the position arithmetic of `src/utils.ts`;
- the line buffer `TextManager` of `src/text.ts`;
- the undo records of `src/memento.ts` and the undo stack of `src/history.ts`;
- the edit session `EventHandler` of `src/event_handler.ts`. It turns key and mouse events into buffer edits, memento growth or flushes, and caret and selection updates.

The modules follow the source files:

| module | file | form |
|---|---|---|
| `Utils` | utils.dfy | functions and lemmas, as in `src/utils.ts` |
| `Lines` | lines.dfy | the flat-text view used to state the buffer's contracts |
| `TextOps` | text_ops.dfy | a function per `TextManager` operation, with its lemmas |
| `Text` | text.dfy | class `TextManager`. Its methods change `text` in place and are proved against the `TextOps` functions |
| `Mementos` | memento.dfy | the pure recipe behind a memento, its restore and coalescing lemmas, and class `Memento` |
| `Histories` | history.dfy | class `History` over a `seq<Memento>` stack |
| `Events` | event_handler.dfy | class `EventHandler`, one method per branch of the key handler |

A buffer is a sequence of lines. Contracts read it through its flat text, `Lines.Flat`: every line followed by a line break. `Offset(L, p)` is where position `p` falls in that text. Insertion and deletion are stated through one relation, `TextOps.InsertedAt(L, p, t, L2, q)`. It says that `L2` is `L` with `t` put into the flat text at `p`, and that `q` marks the end of `t`. Every round trip in the model goes through it:
- insert then delete;
- delete then insert;
- each kind of memento restored;
- a coalesced run of typed keys or of backspaces restored in one step.

A memento is modelled twice. `Mementos.Recipe` is its value: the re-insert position, the range to delete and the text to put back. `Mementos.Restored` says what restoring a recipe does. The class `Memento` holds the same fields, and its `View()` reads them back as a `Recipe`.

The buffer invariant is `Lines.ValidLines`: at least one line, and no line holding a break. `EventHandler.Valid()` adds the rest of the session invariant:
- the caret and the selection end lie in the buffer;
- every memento edits this buffer;
- at most one kind of run is being collected;
- the memento of an open run is not yet on the history.

`TextManager.changePosLeftOrRight` carries a doubt about counts above one. `Text.TextManager.ChangePosLeftOrRight` is proved for every count: the walk over rows always lands on the clamped flat-text offset.

Behaviour of the code worth noting:
- Undoing a selection edit does not re-select the old selection. `restoreFromSnapshot` reports no selection end (`src/history.ts:37`), so the caret lands on the later end of the old selection. `Events.ReplaceExample` shows this on "hello world".
- Replacing or deleting a selection does not flush an open typing or backspace run (`src/event_handler.ts:107-120`, `158-168`). It stores its own memento and leaves the run flags as they were. `HandleRegularKey` and `HandleBackspaceKey` state this.

## Model

| member | source | states |
|---|---|---|
| Utils.ComparePositions | src/utils.ts:4-19 | The result is -1, 0 or 1. It is -1 exactly when `pos1` comes before `pos2` in row-major order, 0 exactly when they are equal, and 1 exactly when `pos2` comes first |
| Utils.CompareReflexive | src/utils.ts:15-17 | A position compared with itself gives 0 |
| Utils.CompareAntisymmetric | src/utils.ts:4-19 | Swapping the arguments negates the result |
| Utils.CompareTransitive | src/utils.ts:4-19 | "Before" is transitive, so the comparison is a strict total order |
| Lines.CompareIsOffsetCompare | src/utils.ts:4-19 | For positions inside the buffer, the comparison orders them as their offsets in the flat text |
| Utils.GetStartAndEndColumnsOnALine | src/utils.ts:21-78 | The range equals an independent description, `SelectedColumns`. Reading the selection from its earlier to its later end, a row strictly inside is covered whole, the first row from the earlier column, and the last row up to the later column. A row outside the span gets (-1, -1) |
| Utils.ColumnsOnSameLine | src/utils.ts:30-38 | With both ends on the line, the range is (smaller column, larger column) in either direction |
| Utils.ColumnsOnInnerLine | src/utils.ts:53-70 | A line strictly between the ends' rows yields (0, length), forward or backward |
| Utils.ColumnsOutsideSelection | src/utils.ts:57-74 | The result is (-1, -1) if and only if the line is outside the rows the selection spans |
| Utils.ColumnsDirectionIndependent | src/utils.ts:29-77 | Swapping start and end gives the same range |
| Utils.ColumnsWithinLine | src/utils.ts:29-77 | For ends whose columns fit their lines and a line inside the span, 0 <= startCol <= endCol <= length |
| Lines.Split | src/text.ts:138 | `split('\n')` yields at least one piece and no piece holds a break. The pieces joined with breaks give back the string |
| TextOps.NextPositionOffset | src/text.ts:27-46 | One step right stays in bounds and advances one character of the flat text, the line break counting as one. At the end of the last line it stays put |
| TextOps.PrevPositionOffset | src/text.ts:47-66 | One step left stays in bounds and goes back one character of the flat text, the line break counting as one. At (0, 0) it stays put |
| TextOps.OneStepIsMovedOffset | src/text.ts:27-67 | A position inside the buffer at the clamped offset one step right or left is the next or previous position |
| TextOps.MoveUpOrDown | src/text.ts:69-104 | Moving down on the last row, or up on row 0, returns the position unchanged. Otherwise the result is the next row down (for a count of 1) or up (for any other count), with the column clamped to that row's length |
| TextOps.MoveUpOrDownUndone | src/text.ts:69-104 | Moving down then up, or up then down, returns to the starting position whenever the row passed through was long enough for its column |
| TextOps.MoveUpOrDownInBounds | src/text.ts:69-104 | A vertical move from a position inside the buffer stays inside it |
| TextOps.EditPosition | src/text.ts:204-213 | The clamped position is in bounds. A row past the end goes to the end of the last line, a column past the end goes to the line's end, and a position already inside is returned unchanged |
| TextOps.EditPositionIdempotent | src/text.ts:204-213 | Clamping twice is clamping once |
| TextOps.BetweenOnOneRow | src/text.ts:116-127 | On one row the text between two positions is the slice of the line between their columns |
| TextOps.BetweenAcrossRows | src/text.ts:116-127 | Across rows the text between is the first line's tail, a break, each inner line with its break, then the last line's head |
| TextOps.SplitBetween | src/text.ts:116-127 | The text between two positions on different rows splits at its breaks into exactly those pieces. So it holds `pos2.row - pos1.row` breaks |
| TextOps.GatheredStep | src/text.ts:118-125 | One iteration of the gathering loop appends the line's selected columns, within the line, followed by a break unless it is the last row |
| TextOps.InsertLine | src/text.ts:148-150 | Inserting break-free text keeps the line count and leaves the caret in bounds |
| TextOps.SplitLine | src/text.ts:155-160 | Inserting a lone break adds exactly one line and leaves the caret in bounds |
| TextOps.InsertPieces | src/text.ts:138-146 | Inserting the split pieces one by one, with a break between each two, leaves the caret in bounds |
| TextOps.InsertText | src/text.ts:131-161 | insertText of any string leaves the caret in bounds; `InsertTextInsertedAt` and `InsertTextOfInsertedAt` characterise its result exactly |
| TextOps.InsertLineInsertedAt | src/text.ts:148-150 | Inserting a string without breaks puts it into the flat text at the position, and the caret ends after it |
| TextOps.SplitLineInsertedAt | src/text.ts:155-160 | Inserting a lone break puts one break into the flat text at the position, and the caret ends on the new row |
| TextOps.InsertPiecesInsertedAt | src/text.ts:138-146 | Inserting the pieces of a split string with breaks between them inserts the pieces joined by breaks |
| TextOps.InsertedAtCompose | src/text.ts:139-145 | Two insertions in a row, the second at the end of the first, are one insertion of the concatenated text |
| TextOps.InsertedAtUnique | src/text.ts:131-161 | The lines and the caret after an insertion are determined by the flat text, the position and the inserted string |
| TextOps.InsertedAtCancel | src/text.ts:131-161 | The same insertion into two buffers with the same result means the buffers were equal |
| TextOps.InsertedAtKeepsStart | src/text.ts:131-161 | After an insertion the insertion point is still in bounds at the same offset, and the caret is not before it |
| TextOps.InsertTextInsertedAt | src/text.ts:131-161 | insertText of any string, with or without breaks, puts that string into the flat text at the position, and the caret ends right after it |
| TextOps.InsertTextOfInsertedAt | src/text.ts:131-161 | Conversely, any result that inserts the string at the position is what insertText returns |
| TextOps.InsertWithoutBreak | src/text.ts:148-150 | A string without breaks replaces the row by prefix + string + suffix, leaves the other lines and the line count unchanged, and returns (row, col + length) |
| TextOps.InsertBreak | src/text.ts:153-160 | A lone break splits the row at the column into two rows and returns (row + 1, 0) |
| TextOps.SplitExample | src/text.ts:138 | "\nXY" splits into "" and "XY" |
| TextOps.InsertExample | src/text.ts:135-146 | Inserting "\nXY" at (0, 3) of ["abc", "def"] gives ["abc", "XY", "def"] and returns (1, 2) |
| TextOps.DeleteText | src/text.ts:163-196 | The caret goes to the earlier of the two ends |
| TextOps.DeleteOnOneRow | src/text.ts:164-178 | A same-row delete does not depend on the order of the ends, cuts the columns between them from that row (nothing when they are equal), and leaves every other row and the line count as they were |
| TextOps.DeleteAcrossRows | src/text.ts:180-195 | A cross-row delete joins the first row's head to the last row's tail and drops `second.row - first.row` rows. The rows before and after are unchanged |
| TextOps.DeleteTextInsertedAt | src/text.ts:163-196 | The lines before the delete are the lines after it with the text between the ends put back at the earlier end. Deletion removes exactly the text between |
| TextOps.DeleteTextKeepsValid | src/text.ts:163-196 | Deleting keeps at least one line and no line holding a break |
| TextOps.DeleteAfterInsert | src/text.ts:131-196 | Deleting from the insertion point to the returned caret, in either order, undoes an insertion |
| TextOps.DeleteOfInsertedAt | src/text.ts:131-196 | Deleting the inserted range of any insertion, in either order, gives back the original lines and position |
| TextOps.InsertAfterDelete | src/text.ts:131-196 | Inserting the deleted text at the caret the delete returns undoes the delete, and the caret ends at the later end |
| TextOps.UnitBeforePosition | src/text.ts:47-66 | The unit left of the caret is the previous character, a break at column 0, and nothing at (0, 0) |
| Text.TextManager.constructor | src/text.ts:9-11 | A new manager has no lines |
| Text.TextManager.GetText | src/text.ts:106-108 | Returns the line array |
| Text.TextManager.SetText | src/text.ts:111-113 | The buffer becomes the given lines |
| Text.TextManager.RestoreFromSnapshot | src/text.ts:220-223 | The buffer is replaced wholesale |
| Text.TextManager.ChangePosition | src/text.ts:15-25 | A column change moves through the flat text by the clamped offset. ±1 gives the next or previous position, and a zero column change moves up or down |
| Text.TextManager.ChangePosLeftOrRight | src/text.ts:27-67 | The result is in bounds, at the start offset plus the requested count clamped to the flat text |
| Text.TextManager.GetTextBetweenPositions | src/text.ts:116-127 | For ends in reading order, the result is the flat text between them. On one row it is the slice between the smaller and larger column, and with the rows in the wrong order it is empty |
| Text.TextManager.InsertText | src/text.ts:131-161 | The buffer stays valid, and the new lines and caret are those of the `InsertText` function |
| Text.TextManager.InsertIntoRow | src/text.ts:148-150 | The row becomes head + string + tail and the caret ends after the string. The buffer stays valid |
| Text.TextManager.SplitRow | src/text.ts:155-160 | The row is cut at the column and its tail becomes a new row below. The caret goes to (row + 1, 0) |
| Text.TextManager.InsertSplitLines | src/text.ts:138-146 | Each piece goes in followed by a break except after the last. The buffer stays valid, and the result is the `InsertPieces` function's |
| Text.TextManager.DeleteText | src/text.ts:163-196 | The new lines and caret are those of the `DeleteText` function, and a valid buffer stays valid |
| Text.TextManager.JoinRows | src/text.ts:180-195 | The earlier row becomes its head joined to the later row's tail, the rows after it up to the later row go, and all other rows stay |
| Mementos.Restored | src/memento.ts:82-85 | The restored buffer is what the delete of the final range leaves, with the deleted text inserted at the initial start, and the caret right after that text |
| Mementos.NullRecipe | src/memento.ts:72-80 | The null recipe deletes nothing and puts nothing back, at (0, 0) |
| Mementos.DeleteRecipe | src/memento.ts:89-102 | A delete recipe deletes nothing on undo and puts `text` back at `at` |
| Mementos.InsertRecipe | src/memento.ts:112-124 | An insert recipe deletes from `at` to `end` on undo and puts nothing back |
| Mementos.ReplaceRecipe | src/memento.ts:163-177 | A replacement recipe deletes from `at` to `end` on undo and puts `text` back at `at` |
| Mementos.AddDelete | src/memento.ts:106-109 | Growing a delete run prepends the unit to the text put back and moves the insertion start, leaving the range to delete alone |
| Mementos.AddCharacter | src/memento.ts:126-128 | Growing a typing run moves only the end of the range to delete |
| Mementos.TypeRun | src/event_handler.ts:121-134 | After a run of keys the open memento deletes from the run's start up to the caret on undo and puts nothing back, and the caret is in bounds |
| Mementos.RestoreNull | src/memento.ts:72-85 | Restoring the null memento leaves the buffer unchanged and returns (0, 0) |
| Mementos.RestoreInsertion | src/memento.ts:82-85 | A memento with nothing to delete, on lines that are the old lines minus its text, restores the old lines and caret |
| Mementos.RestoreNothingBack | src/memento.ts:82-85 | Re-inserting an empty text changes nothing |
| Mementos.RestoreStringInsert | src/memento.ts:112-143 | After insertText(p, s) returns q, restoring the insert memento (p, q) brings back the lines from before the insertion, with the caret at p |
| Mementos.RestoreStringDelete | src/memento.ts:146-159 | After a selection delete, restoring the delete memento puts back the deleted text and returns the later end |
| Mementos.RestoreReplacement | src/memento.ts:163-177 | After a replacement, restoring the memento deletes the new text, re-inserts the replaced text and restores the lines from before |
| Mementos.TypingStart | src/memento.ts:112-124 | The first key of a run creates an insert memento that records that key's insertion |
| Mementos.TypingGrow | src/memento.ts:126-128 | Moving the memento's end to the caret after one more key keeps it recording the whole run |
| Mementos.TypingRestore | src/memento.ts:82-85 | Restoring a memento that records a run removes the whole run |
| Mementos.TypeRunTyped | src/memento.ts:126-128 | After n keys typed in a row, the grown memento records the concatenation of all n |
| Mementos.TypingRunRestore | src/memento.ts:126-128 | One restore after n keys typed in a row gives back the lines before the first key |
| Mementos.Backspace | src/event_handler.ts:175-177 | One backspace leaves the caret at the previous position |
| Mementos.BackspaceInsertedAt | src/event_handler.ts:175-177 | One backspace removes exactly the unit it reports as deleted |
| Mementos.BackspaceStart | src/memento.ts:89-102 | The first backspace creates a delete memento that puts the unit back |
| Mementos.BackspaceGrow | src/memento.ts:106-109 | Prepending the next deleted unit and moving the start back keeps the memento recording the whole run |
| Mementos.BackspaceRestore | src/memento.ts:82-85 | Restoring a memento that records a run of backspaces re-inserts everything they deleted and returns the caret from before the run |
| Mementos.BackspaceRun | src/memento.ts:106-109 | After k backspaces in a row, the grown memento records the whole run and its start is the caret |
| Mementos.BackspaceRunRestore | src/memento.ts:106-109 | One restore after k backspaces in a row gives back the lines and caret from before the first |
| Mementos.Memento.constructor | src/memento.ts:58-70 | The fields are the given buffer, positions and text |
| Mementos.Memento.CreateNull | src/memento.ts:72-80 | All positions are (0, 0) and the text is empty |
| Mementos.Memento.Restore | src/memento.ts:82-85 | The range is deleted only when the end is present, then the text is inserted at the start. The buffer and the returned caret are those of `Restored` |
| Mementos.Memento.CreateSingleCharDeleteMemento | src/memento.ts:89-102 | Re-insert and delete start at the new caret, no delete end, the deleted unit as text |
| Mementos.Memento.AddDeleteToMemento | src/memento.ts:106-109 | The text is prepended and the re-insert position moves. The delete range is unchanged |
| Mementos.Memento.CreateSingleCharacterInsertMemento | src/memento.ts:112-124 | Delete from the caret to the new caret, with nothing to put back |
| Mementos.Memento.AddCharacterToMemento | src/memento.ts:126-128 | Only the delete end changes |
| Mementos.Memento.CreateStringInsertMemento | src/memento.ts:131-143 | Delete from the caret to the end of the pasted text, with nothing to put back |
| Mementos.Memento.CreateStringDeleteMemento | src/memento.ts:146-159 | The end position is ignored. There is no delete end, and the deleted text goes back at the start |
| Mementos.Memento.CreateStringReplacementMemento | src/memento.ts:163-177 | Delete from the start to the new text's end, and put the replaced text back at the start |
| Histories.History.constructor | src/history.ts:20-22 | The stack starts empty |
| Histories.History.StoreNewMemento | src/history.ts:24-27 | The memento goes on top, and every earlier entry stays where it was |
| Histories.History.HasSnapshotToRestore | src/history.ts:29-31 | True exactly when the stack is not empty |
| Histories.History.RestoreFromSnapshot | src/history.ts:33-38 | Pops the top memento and restores it. The rest of the stack is unchanged, the caret is the position restore returns, and the selection end is always absent |
| Histories.History.PushSnapshot | src/history.ts:40-42 | Appends to the top |
| Histories.History.PopSnapshot | src/history.ts:44-46 | Returns the top and removes it, or nothing and no change on an empty stack |
| Histories.StoreThenPop | src/history.ts:24-46 | Last in, first out: storing then popping gives the memento back and leaves the stack as it was |
| Events.ArrowChange | src/event_handler.ts:137-152 | ArrowLeft asks for one column left, ArrowRight one column right, ArrowUp one row up and ArrowDown one row down; every other key asks for no move |
| Events.ArrowTarget | src/event_handler.ts:92-99 | Where an arrow moves a position inside the buffer is inside the buffer |
| Events.Replaced | src/event_handler.ts:109-114 | Replacing a selection leaves a valid buffer with the caret in it |
| Events.ReplacedUndone | src/event_handler.ts:107-120 | The replacement memento pushed by a replace restores the lines from before it, with the caret on the later end of the old selection |
| Events.ReplaceExample | src/event_handler.ts:107-120 | "H" typed over "hello" in "hello world" gives "H world" at (0, 1). Undo gives "hello world" back at (0, 5) with no selection |
| Events.ReplaceExampleEdit | src/event_handler.ts:107-120 | The selection (0, 0)-(0, 5) of "hello world" reads "hello", and typing "H" over it gives "H world" with the caret at (0, 1) |
| Events.JoinExample | src/event_handler.ts:169-185 | Backspace at (1, 0) of ["abc", "def"] gives ["abcdef"] at (0, 3). Undo splits the rows again at (1, 0) |
| Events.EventHandler.constructor | src/event_handler.ts:25-41 | Caret at (0, 0), no selection, empty clipboard, no run, and the null memento open |
| Events.EventHandler.GetSelStart | src/event_handler.ts:225-227 | Returns the caret |
| Events.EventHandler.GetSelEnd | src/event_handler.ts:229-231 | Returns the selection end |
| Events.EventHandler.SelectionExists | src/event_handler.ts:233-235 | True exactly when a selection end is set |
| Events.EventHandler.SetSelStart | src/event_handler.ts:237-243 | The caret becomes the position, unclamped |
| Events.EventHandler.SetSelEnd | src/event_handler.ts:245-251 | A present position is clamped into the buffer, and an absent one clears the selection |
| Events.EventHandler.SetSelStartFromMouseEvent | src/event_handler.ts:253-256 | The caret becomes the clamped mouse position |
| Events.EventHandler.SetSelEndFromMouseEvent | src/event_handler.ts:258-261 | The selection end becomes the clamped mouse position. The second clamp changes nothing |
| Events.EventHandler.RemoveSelection | src/event_handler.ts:264-266 | The selection end goes and the caret stays |
| Events.EventHandler.HandleMouseDown | src/event_handler.ts:43-58 | With Shift the selection end goes to the mouse position and the caret stays. Otherwise the caret goes there and the selection goes. A drag starts |
| Events.EventHandler.HandleMouseMoved | src/event_handler.ts:60-66 | During a drag the selection end follows the mouse. Otherwise nothing changes |
| Events.EventHandler.HandleMouseUp | src/event_handler.ts:68-76 | Released on the caret, the selection goes. The drag ends either way |
| Events.EventHandler.FlushOpenMemento | src/event_handler.ts:83-86 | If a run is open its memento is pushed. Both flags are cleared |
| Events.EventHandler.StartSelectionOrMoveCursor | src/event_handler.ts:82-103 | The open run is flushed. With Shift the selection end (seeded from the caret) moves and the caret stays. Otherwise the caret moves from the selection end, or from itself, and the selection goes |
| Events.EventHandler.ReplaceSelection | src/event_handler.ts:107-120 | The selection is replaced by the key, with the caret after it. Exactly one replacement memento is pushed, recording the earlier end, the new caret and the replaced text. The run state is untouched |
| Events.EventHandler.ReplaceInBuffer | src/event_handler.ts:109-114 | The ends come out in reading order, the text read is the text between them, and the buffer is the replacement |
| Events.EventHandler.TypeAtCaret | src/event_handler.ts:121-134 | An open backspace run is pushed first. The key goes in at the caret and the caret ends after it. The first key opens an insert memento and later keys only move its end. A typing run is open afterwards. When a new memento is opened, the previous one, which may already be on the history, is left exactly as it was |
| Events.EventHandler.FlushBackspaceRun | src/event_handler.ts:122-125 | An open backspace run is pushed and its flag cleared |
| Events.EventHandler.TypeInRun | src/event_handler.ts:126-133 | The key is inserted at the caret, and the open memento is created or grown. A newly created memento leaves the previous one untouched |
| Events.EventHandler.HandleRegularKey | src/event_handler.ts:106-135 | With a selection: the buffer becomes `Replaced`, a replacement memento holding the old selected text is pushed, and the flags and the open memento are kept. Without: the key is typed at the caret, an open backspace run is pushed first, the open memento is grown or a fresh one opened (leaving the previous one untouched), and a typing run is open afterwards |
| Events.EventHandler.DeleteSelection | src/event_handler.ts:158-168 | The selection is deleted and the caret goes to its earlier end. Exactly one delete memento is pushed, holding the deleted text and that end |
| Events.EventHandler.DeleteInBuffer | src/event_handler.ts:159-162 | The text read is the text between the ends, and the buffer is the deletion |
| Events.EventHandler.BackspaceAtCaret | src/event_handler.ts:169-185 | An open typing run is pushed first. The unit left of the caret is deleted. The first backspace opens a delete memento and later ones prepend to it. A backspace run is open afterwards. When a new memento is opened, the previous one, which may already be on the history, is left exactly as it was |
| Events.EventHandler.FlushTypingRun | src/event_handler.ts:170-174 | An open typing run is pushed and its flag cleared |
| Events.EventHandler.BackspaceInRun | src/event_handler.ts:175-184 | The unit is deleted and the open memento is created or grown. A newly created memento leaves the previous one untouched |
| Events.EventHandler.DeleteUnitBeforeCaret | src/event_handler.ts:175-177 | The new caret, the deleted text and the buffer are those of one backspace |
| Events.EventHandler.HandleBackspaceKey | src/event_handler.ts:157-188 | With a selection: it is deleted, a delete memento holding the old selected text is pushed, and the flags and the open memento are kept. Without: an open typing run is pushed first, one unit is deleted, the open memento is grown or a fresh one opened (leaving the previous one untouched), and a backspace run is open. Either way no selection remains |
| Events.EventHandler.CopySelectionToClipboard | src/event_handler.ts:268-277 | The clipboard becomes the selected text read in reading order. An empty selection leaves it unchanged |
| Events.EventHandler.PasteClipboardOverSelection | src/event_handler.ts:279-300 | An absent or empty clipboard changes nothing. Otherwise the selection is replaced by the clipboard and one replacement memento is pushed |
| Events.EventHandler.PasteClipboardAtCursor | src/event_handler.ts:302-310 | An absent or empty clipboard changes nothing. Otherwise the clipboard goes in at the caret, a string-insert memento becomes the open memento and is pushed, and the caret ends after the paste |
| Events.EventHandler.Paste | src/event_handler.ts:204-209 | With an absent or empty clipboard nothing changes. Otherwise, over a selection, the buffer becomes `Replaced` with the clipboard text and a replacement memento is pushed; with no selection the clipboard text goes in at the caret and a fresh string-insert memento is opened and pushed |
| Events.EventHandler.RestoreStateFromSnapshot | src/event_handler.ts:312-318 | An empty history changes nothing. Otherwise the top memento is popped and restored, the caret goes to the restored position and the selection goes |
| Events.EventHandler.MoveToLineStart | src/event_handler.ts:210-212 | The caret goes to column 0 of its row and the selection goes |
| Events.EventHandler.MoveToLineEnd | src/event_handler.ts:213-217 | The caret goes to column min(1000000, line length) of its row and the selection goes |
| Events.EventHandler.HandleShortcut | src/event_handler.ts:191-219 | Any shortcut first pushes the open run and clears both flags. Ctrl-c sets the clipboard to the selected text (unchanged for an empty selection). Ctrl-z straight after a run restores that run's memento and leaves the history as it was; otherwise it pops and restores the top memento, or changes nothing on an empty history. Ctrl-v pastes over the selection or at the caret as those members state, and changes nothing with an empty clipboard. Ctrl-a and Ctrl-e put the caret at the start or the clamped end of its row and drop the selection. Other keys change nothing further |
| Events.EventHandler.HandleKeyStrokes | src/event_handler.ts:78-223 | The session invariant holds afterwards. Arrows and shortcuts clear both flags. A typed key or Backspace at a caret with no selection leaves exactly its own kind of run open, and one acting on a selection leaves the flags as they were |

## Left out

- Rendering, the canvas and text-grid views, cursor blinking, event-listener wiring and file loading are not part of this model. The same goes for the `Observable` notification that `setSelStart` and `setSelEnd` send, and all `console.log` calls.
- Mouse events arrive as the buffer position the mouse maps to. `textEd.mouseEventToPosition` (pixel-to-cell mapping with floating point) is not modelled.
- Key events are `KeyEvent(key, shiftKey, ctrlKey)`, the fields the handler reads. Any key name that is not an arrow, Enter, Backspace or a Ctrl shortcut is typed as text, as in the source.
- JavaScript's `slice` clamps out-of-range columns and a missing row crashes. The buffer operations instead require in-bounds positions, and the session invariant keeps the caret and the selection end in bounds.
- Text.TextManager.constructor leaves the buffer empty, as the source does. The buffer invariant holds once `SetText` gives it lines.
- Mementos.Memento.Restore requires the recipe to fit the buffer (`Applicable`). Otherwise the source's delete and insert would index outside the lines.
- Histories.History.RestoreFromSnapshot requires a non-empty stack, because the source force-unwraps the popped value. It also requires the top memento to fit its buffer.
- Events.EventHandler.RestoreStateFromSnapshot requires the top memento, when there is one, to fit the buffer. Ctrl-z in `HandleShortcut` and `HandleKeyStrokes` requires the same of the memento it will restore (`UndoReady`).
- Columns count Dafny characters, which are Unicode scalar values, where the source's `length`, `slice` and column arithmetic count UTF-16 code units. A character outside the Basic Multilingual Plane (an emoji, say) takes one column here and two in the source. So after such a character is typed the source puts the caret two columns on and the model one, and a source arrow step or backspace moves one code unit, into the middle of the surrogate pair, where the model moves over the whole character. This affects `TextOps.InsertText`, `UnitBeforePosition`, `NextPositionOffset`, `PrevPositionOffset` and every member built on them. Text made only of Basic Multilingual Plane characters has the same columns in both.
- Undo is proved per memento, not for whole sessions. The mouse handlers never flush an open run, and replacing or deleting a selection keeps the run flags. So a later keystroke can grow a memento recorded elsewhere, and that memento need not fit the buffer any more.
- Events.EventHandler.CopySelectionToClipboard requires a selection, because the source dereferences `selEnd` unchecked. `HandleShortcut` and `HandleKeyStrokes` pass that requirement on for Ctrl-c.
- Events.EventHandler.PasteClipboardAtCursor requires no selection and no open run. Its only caller, Ctrl-v, reaches it only after the flush and without a selection.
- Events.EventHandler.HandleKeyStrokes states the invariant and the run flags for every key. The buffer edit of each key is stated by the member it dispatches to, not repeated here.
- Events.EventHandler.ReplaceSelection, DeleteSelection, TypeAtCaret, BackspaceAtCaret and PasteClipboardAtCursor state the memento each one records. They do not restate the restore round trip; `ReplacedUndone`, `RestoreStringDelete`, `TypingRunRestore`, `BackspaceRunRestore` and `RestoreStringInsert` prove it about those records.
