# Verified model of Vitor's Editor

A Dafny model of the editing engine of Vitor's Editor (VED), with proofs about single
commands, about whole runs of keys, and about what is drawn.

The engine keeps the buffer as an array of lines and edits it in place. The model gives that
buffer one meaning, the flat text obtained by joining the lines with newlines
(`FlatText.Join`, with `FlatText.Split` as its inverse), and proves that every edit is one
splice of that text. Everything else is built on it: the kill and yank theorems, incremental
search, the selection that is drawn.

| file | what it models |
|---|---|
| `Bytes.dfy` | bytes, lines, the C-locale character classes |
| `FlatText.dfy` | lines and flat text, positions and offsets, `Replace` (a splice given by two positions) |
| `Utf8.dfy` | UTF-8 boundaries and visual columns over 8-column tab stops |
| `Buffer.dfy` | the line buffer and its edits; reading and writing files |
| `Motion.dfy` | cursor motions, as functions and as the class that moves |
| `KillRing.dfy` | the 16-slot ring and the unbounded history it stands for |
| `Search.dfy` | forward and backward search |
| `Report.dfy` | mouse reports: their numbers and what they mean |
| `EditorSpec.dfy` | the state of the editor and one step of it per key, as functions |
| `Region.dfy` | the loop that copies a region, row by row |
| `Editor.dfy` | the editor as an object whose handlers update its fields; proved to take that step |
| `EditorRuns.dfy` | what every step keeps; runs of keys |
| `Keys.dfy` | what each key does to the flat text and to the cursor's offset in it |
| `KillYank.dfy`, `KeyRuns.dfy` | kill, yank and rotation, on states and on typed keys |
| `OnText.dfy` | which keys keep the cursor on the text, and which runs find every byte they read |
| `KillHistory.dfy` | the kill ring over whole runs |
| `Saving.dfy` | when the text counts as saved, over whole runs; saving, opening and leaving as typed keys |
| `Counterexamples.dfy` | typed runs after which cursor, text, ring or flag are not what one might expect |
| `SearchRuns.dfy` | runs of keys inside incremental search |
| `Render.dfy` | tab expansion, span painting, coloured runs |
| `Screen.dfy` | the selection and the clipping of a drawn line; where a click lands |
| `Scroll.dfy` | the window |
| `Ignore.dfy`, `Scan.dfy` | ignore rules and the recursive project scan |
| `Fuzzy.dfy`, `Finder.dfy` | the fuzzy matcher, the ranked match list, the finder |
| `Order.dfy` | sequences in strict order |
| `Base64.dfy` | the base 64 encoder |

Where the source works by changing things step by step the model does too: the buffer, the
cursor frame, the kill ring, the editor, the output buffer, the window, the rule list and the
finder are classes, and the loops are loops with invariants. Each method is proved equal to a
function of the old state, and the theorems are about those functions. In particular
`Editors.Editor.ProcessKey` carries the fields of the editor from one state to
`EditorSpec.Step` of it, and `Editors.Editor.ProcessKeys` carries them along a whole run of
keys to `EditorRuns.Run` of it. One thing is asked of such a run: a key that steps the cursor
back (C-b, Backspace, the left arrow) must find the cursor on the text, since the source then
reads the bytes before it; past the end of a line those are not bytes of the buffer.
`TextRuns.RunsFromStart` shows that every run from the start has this property unless a C-w or the mouse
wheel has put the cursor past the end of its line, and `TextRuns.StepOnText` says exactly
which presses do that. So the theorems about runs are theorems about `editor_process_key` for
all those runs.

What comes from outside is a parameter of the step: whether a file could be opened or written
and what it holds, whether the finder found a project root, and which part of the text the
window shows (`EditorSpec.World`). The highlight spans, the directory tree with the lines of its ignore
files, and `fnmatch` are data or unknown functions.

Sizes are unbounded integers; the fixed sizes that decide behaviour (16 kill-ring slots, the
255-byte search query, the escape buffer) are kept.

## Where the code differs from its documentation or from a simpler story

* `README.md` of the repository offers `M-y` after `C-y`. Typed as the two bytes ESC and `y` it
  never rotates, because the ESC byte passes through the common exit that clears the yank
  flag: `KillHistory.NoRunRotates`, for every state that a run of keys reaches. Rotation is therefore proved where it lives, at the
  meta-key handler, with the flag set (`KillYank.RotationsCycle`). For the same reason a typed
  `M-d` never extends the previous kill (`KeyRuns.TypedWordKillIsFresh`).
* After `C-w` with a mark whose column lies beyond its line the cursor may be left beyond the
  end of the line: `KeyRuns.KillRegionStrands` says exactly when, and
  `Counterexamples.StrandingRun` gets there with five keys from the empty buffer. The wheel
  does the same on its way to a shorter line (`Counterexamples.WheelRun`).
* `C-w` with a mark on a row that is gone puts text in the ring and removes none:
  `KillYank.KillRegionRemoves` says that this is exactly when it does not remove what it rings up,
  and `Counterexamples.StaleRun` is a typed run that does it.
* A kill at the end of a line removes one newline and rings up the newline and the whole next
  line. So a yank after it doubles that line, and brings the text back exactly when that line is
  empty: `KeyRuns.KillNewlineRun`, and the same for M-d and M-Backspace. `Counterexamples.DoublingRun`
  is a typed run in which a line is doubled.
* After Backspace the cursor steps back over the already edited line:
  `KeyRuns.BackspaceLands` and `KeyRuns.BackspaceJoins` say where it ends,
  `KeyRuns.BackspaceAtEditPoint` when that is the edit point; `Counterexamples.MissingRun` is
  a typed run in which it is not.
* After j rotations of a full ring, j from 1 to 15, a new kill overwrites entry number j - 1, which
  is newer than the oldest: `KillRings.RotationChangesVictim`. By `KillHistory.NoRunRotates` no
  run of keys rotates the ring.
* The finder clears the flag for unsaved text also when the file it selects passes the access check
  but does not open, and the text stays. `Saving.StepIsHonest` says that no other key lets the flag lie;
  `Counterexamples.ForgettingRun` is a run that ends with a letter typed, saved nowhere, and the
  flag down.
* A click is placed by adding the cells to the byte offset of the window. That is the byte drawn
  under it exactly when every tab before it is one cell wide: `Screens.ClickFindsByte`, with
  `Screens.ClickMissesTab` as a line where it is not.
* Widths that are measured from column 0 are right exactly for tab-free text or at a tab stop
  (`Rendering.WidthFromZero`), so a coloured run with a tab may be drawn off its place:
  `Rendering.InteriorTabsDiffer` is a line where it is, `Rendering.DrawnAsPlainIff` the exact
  condition run by run.
* Saving and loading gives back the lines exactly when no line ends in a carriage return:
  `Buffers.LoadWritten`.

## Model

| member | source | states |
|---|---|---|
| `FlatText.SplitJoin` | src/render.c:326-353 | splitting the joined text gives back the lines, for lines without newlines |
| `FlatText.JoinSplit` | src/render.c:326-353 | joining the split text gives back any text |
| `FlatText.BuildBufferText` | src/render.c:326-353 | the array that is built holds the lines joined with newlines and a NUL, and the length returned is that of the text |
| `FlatText.BuildLineOffsets` | src/render.c:355-369 | every offset up to the last row is the place in the joined text where the row starts |
| `FlatText.OffsetIndexesLine` | src/render.c:326-369 | the bytes at a row's offset are exactly that row, followed by a newline or by the end of the text |
| `FlatText.AtOrder` | src/input.c:55-82 | comparing positions by row and column is comparing offsets in the text |
| `FlatText.PosAtIsAt` | src/render.c:355-369 | every offset of the text is the offset of exactly one position |
| `FlatText.ReplaceIsSplice` | src/buffer.c:312-379 | replacing between two positions splices the joined text at their offsets, and keeps the lines valid |
| `FlatText.InsertRemoved` | src/input.c:799-866 | putting back what was cut between two positions restores the lines, and leads to the later one |
| `FlatText.RemoveInserted` | src/input.c:949-970 | cutting what was inserted, by its two ends, restores the lines |
| `Bytes.CharacterClasses` | src/input.c:133-141 | word characters, white space and continuation bytes by the characters they hold |
| `Utf8.FindNextBoundary` | src/utf8.c:10-19 | the loop finds the least boundary after the column |
| `Utf8.FindPrevBoundary` | src/utf8.c:21-30 | the loop finds the greatest boundary before the column |
| `Utf8.ClampCol` | src/utf8.c:32-41 | the greatest boundary at or below the column |
| `Utf8.ClampToBoundary` | src/utf8.c:32-41 | the method computes that boundary, for columns beyond the line too |
| `Utf8.NextThenPrev` | src/utf8.c:10-30 | on arbitrary bytes next and prev undo each other on boundaries |
| `Utf8.StepsOverInserted` | src/utf8.c:10-30 | next and prev step exactly over a complete sequence that was inserted at a boundary |
| `Utf8.ClampMovesLittle` | src/utf8.c:32-41 | in well-formed text clamping moves a column back at most three bytes and never to a tab |
| `Utf8.ColumnsByTabs` | src/utf8.c:43-57 | a tab goes to the next multiple of eight, any other byte one cell on |
| `Utf8.EncodedIsWellFormed` | src/utf8.c:3-8 | every text that is encoded is well formed, so the theorems about well-formed text are about every text |
| `Utf8.Adjoint` | src/utf8.c:43-75 | the column of byte b is at most v if and only if b is at most the byte of column v |
| `Utf8.AdjointRoundTrips` | src/utf8.c:43-75 | the byte of the column of b is b; the column of the byte of v is at most 7 below v, and below it only at a tab |
| `Utf8.ByteToVis` | src/utf8.c:47-57 | the loop computes the visual column |
| `Utf8.VisToByte` | src/utf8.c:59-75 | the loop computes the byte column |
| `Buffers.InsertIsSplice` | src/buffer.c:195-249 | inserting a byte, a newline or a tab is one splice of the text at the clamped offset, and keeps the lines valid |
| `Buffers.DeleteBackwardIsSplice` | src/buffer.c:251-280 | deleting backward removes the sequence or newline before the offset, nothing at the start of the text, and nothing from a column past the end of an empty line |
| `Buffers.DeleteForwardIsSplice` | src/buffer.c:282-310 | deleting forward removes the sequence or newline at the offset, and nothing at the end of the text |
| `Buffers.DeleteRegionIsSplice` | src/buffer.c:312-379 | deleting a region, its ends in either order, removes the text between them |
| `Buffers.DeleteUndoesInsert` | src/buffer.c:195-310 | deleting backward from the end, or forward from the start, of a sequence inserted at a boundary restores the lines |
| `Buffers.DeletesNext` | src/buffer.c:282-310 | inside a line a forward delete takes the bytes up to the least boundary after the position |
| `Buffers.DeletesNewline` | src/buffer.c:290-305 | at the end of a line it takes exactly the newline, and at the end of the text nothing |
| `Buffers.DeletesPrevious` | src/buffer.c:251-280 | inside a line a backward delete takes the bytes from the greatest boundary before the position |
| `Buffers.DeletesNewlineBefore` | src/buffer.c:258-272 | at the start of a line it takes exactly the newline before it |
| `Buffers.Buffer.InsertChar` | src/buffer.c:195-211 | the new lines are the insertion into the old ones, for any row and column |
| `Buffers.Buffer.InsertNewline` | src/buffer.c:213-240 | the same for a newline, which breaks the row |
| `Buffers.Buffer.InsertTab` | src/buffer.c:242-249 | the same for a tab: a tab byte in a makefile, two spaces elsewhere |
| `Buffers.Buffer.DeleteChar` | src/buffer.c:251-280 | the new lines are the backward delete of the old ones |
| `Buffers.Buffer.DeleteForwardChar` | src/buffer.c:282-310 | the new lines are the forward delete of the old ones |
| `Buffers.Buffer.DeleteRange` | src/buffer.c:312-328 | the new lines lack the range of one row; an empty or inverted range changes nothing |
| `Buffers.Buffer.DeleteRegionText` | src/buffer.c:330-379 | the new lines are the region delete of the old ones, rows clamped as the source clamps them |
| `Buffers.Buffer.LoadFile` | src/buffer.c:106-139 | reading line by line gives the lines of the file, at least one; a file that does not open changes nothing |
| `Buffers.Buffer.WriteFile` | src/buffer.c:171-193 | the bytes that reach the file are a prefix of the lines, each with a newline; the write succeeds if and only if the file opens, takes them all and closes |
| `Buffers.LoadWritten` | src/buffer.c:112-188 | loading what was written gives the same lines if and only if no line ends in CR |
| `Buffers.LoadReads` | src/buffer.c:112-131 | any file is read as its lines, each up to the first NUL of what is left without the carriage returns at its end; an empty file as one empty line |
| `Buffers.LoadReturns` | src/buffer.c:112-126 | valid lines that do not end in CR, each written with CR and NL, are read back |
| `Motions.NextCharIsSuccessor` | src/input.c:571-583 | forward-char goes to the least boundary position after the cursor, or stays at the end |
| `Motions.PrevCharIsPredecessor` | src/input.c:558-569 | backward-char goes to the greatest boundary position before the cursor, or stays at the start |
| `Motions.ForwardBackward` | src/input.c:558-583 | each undoes the other, across line ends too |
| `Motions.ForwardVisitsOnce` | src/input.c:571-583 | iterating forward-char from the start meets every boundary position, exactly one time before the end, and stays at the end |
| `Motions.LineMotions` | src/input.c:536-591 | up and down go one row, to the greatest boundary there at or below the column, and stay on the first and last row; the ends of the line |
| `Motions.NextWordStops` | src/input.c:593-624 | row by row: it runs through rows that hold no more than one gap and one word from where it enters them, and stops behind the word of the first row that goes on, or at the end of the text |
| `Motions.PrevWordStops` | src/input.c:626-664 | it passes rows with nothing before it, and crosses one gap and one word of the first other row, to the start of that word or of the row |
| `Motions.MovesStayOn` | src/input.c:536-664 | any sequence of motions keeps the cursor on the text, and on boundaries |
| `Motions.FindNextWord` | src/input.c:593-624 | the loop over rows and columns computes that motion |
| `Motions.FindPrevWord` | src/input.c:626-664 | the loop over rows and columns computes that motion |
| `Motions.Frame.MovePrevLine` | src/input.c:542-548 | the cursor goes up a line and is clamped to a boundary there |
| `Motions.Frame.MoveNextLine` | src/input.c:550-556 | the cursor goes down a line and is clamped to a boundary there |
| `Motions.Frame.MoveNextChar` | src/input.c:571-583 | the new cursor is the successor of the old one |
| `Motions.Frame.MovePrevChar` | src/input.c:558-569 | the new cursor is the predecessor of the old one |
| `Motions.Frame.MoveNextWord` | src/input.c:593-624 | the new cursor is the forward word motion of the old one |
| `Motions.Frame.MovePrevWord` | src/input.c:626-664 | the new cursor is the backward word motion of the old one |
| `KillRings.PushAppends` | src/input.c:666-692 | an appending kill extends the newest entry and touches no other |
| `KillRings.PushIsFresh` | src/input.c:666-692 | a fresh kill becomes the newest entry of any ring, rotated or not; only a full ring loses one, the last in rotation order |
| `KillRings.RingRefinesHistory` | src/input.c:666-692 | after any sequence of fresh and appending kills, slot (index - k) mod 16 holds the k-th most recent of an unbounded history, for every k in use |
| `KillRings.RotateByTurns` | src/input.c:949-960 | k rotations turn the view of the ring by k |
| `KillRings.RotationChangesVictim` | src/input.c:666-692 | what a kill overwrites after j rotations of a full ring; it is the oldest if and only if j is a multiple of 16 |
| `KillRings.KillRing.Set` | src/input.c:666-692 | the array, length and index go to the pushed ring |
| `KillRings.KillRing.StepBack` | src/input.c:953-958 | the index goes to the rotated ring |
| `Searching.MatchesAt` | src/input.c:304-365 | the inner comparison loop decides whether the query occurs at a column, every byte equal to that of the text or its other case |
| `Bytes.FoldIff` | src/input.c:319 | folding makes two bytes equal if and only if they are the same byte or the two cases of one ASCII letter |
| `Searching.HitByLetters` | src/input.c:314-323 | a query occurs at a column if and only if every byte is that of the text or its other case |
| `Searching.LineSearchForward` | src/input.c:304-330 | the first occurrence in the line at or after the start column |
| `Searching.LineSearchBackward` | src/input.c:332-365 | the last occurrence in the line that ends at or before the end column |
| `Searching.FirstHit` | src/input.c:367-385 | the least position at or after the start where the query occurs, none if there is none |
| `Searching.LastHit` | src/input.c:387-411 | the greatest position on an earlier row, or ending at or before the start column on its row; none if and only if there is none |
| `Searching.SearchForwardFrom` | src/input.c:367-385 | the loop over rows finds that first occurrence |
| `Searching.SearchBackwardFrom` | src/input.c:387-411 | the loop over rows finds that last occurrence |
| `Searching.HitsBackIsChain` | src/input.c:387-411 | the hits a repeated backward search meets are strictly decreasing, and each is the last to end by the boundary before the one it follows |
| `Searching.ExtensionMovesHit` | src/input.c:442-480 | extending the query moves a forward hit later or nowhere, and a backward hit earlier or nowhere |
| `Regions.CopiedIsBetween` | src/input.c:84-131 | the rows of a region, joined, are the slice of the flat text between its ends |
| `Regions.CopyRows` | src/input.c:93-129 | the loop copies exactly the text between the clamped ends, rows past the end of the buffer counting as empty |
| `EditorRuns.StepOk` | src/input.c:1129-1399 | every key and mouse report keeps the lines, the ring, the cursor row, the saved yank ends, the separation of modes, and a matching search on its hit |
| `EditorRuns.EveryRunIsSafe` | src/input.c:1129-1399 | in every state that any run of keys reaches from the start, an active search excludes a prompt, the finder, a pending prefix and a pending escape |
| `KeyEffects.TypedCharacter` | src/input.c:1360-1389 | in any state without a mode, a printable key, Return or Tab (in a makefile and elsewhere) puts its bytes in the text at the cursor's offset and the cursor behind them, and changes nothing else but the flags |
| `KeyEffects.TypingRun` | src/input.c:1129-1399 | any run of such keys puts what was typed at the cursor, in the order of the keys |
| `KeyEffects.OpenedLine` | src/input.c:1311-1316 | C-o puts a newline at the offset of the row's start; the cursor's offset grows by one |
| `KeyEffects.DeletedForward` | src/input.c:1377-1381 | C-d inside a line takes the bytes up to the least boundary after the cursor, which stays |
| `KeyEffects.DeletedNewline` | src/input.c:1377-1381 | at the end of a line it takes the newline, at the end of the text nothing |
| `KeyEffects.DeletedBackward` | src/input.c:1352-1359 | Backspace inside a line takes the bytes from the greatest boundary before the cursor, which goes to the greatest boundary of the new line before its old column |
| `KeyEffects.DeletedNewlineBefore` | src/input.c:1352-1359 | at the start of a line it takes the newline before, and the cursor goes to the end of the joined line |
| `KeyEffects.KilledLine` | src/input.c:1317-1336 | C-k inside a line takes the text up to the next newline and pushes just that |
| `KeyEffects.KilledNewline` | src/input.c:694-716 | at the end of a line it takes the newline, and pushes the newline and the next line; at the end of the text it only raises the flag |
| `KeyEffects.YankedEntry` | src/input.c:799-828 | C-y puts the current entry in the text at the cursor's offset, the cursor behind it, and remembers both ends; with an empty ring nothing |
| `KeyEffects.CopiedRegion` | src/input.c:830-841 | ESC w pushes the slice of the text between mark and cursor, drops the mark and leaves the text; without a region nothing |
| `KeyEffects.MarkToggles` | src/input.c:1273-1287 | C-Space sets the mark at the cursor, and takes it away when it is there already |
| `KeyEffects.Cancelled` | src/input.c:1153-1166 | C-g drops the mark, the prompt and every pending prefix, and leaves text, cursor and ring |
| `KeyEffects.NoMeaning` | src/input.c:1273-1390 | every key without a meaning in the text only clears the two flags |
| `TextRuns.EditKeyOnText` | src/input.c:1280-1390 | a key in the text keeps the cursor and the saved yank start on the text, unless it is C-w and the exact condition for stranding holds |
| `TextRuns.StepOnText` | src/input.c:1129-1399 | any key keeps cursor, yank start and search origin on the text if and only if it is neither that C-w nor a wheel turn to a row that is too short |
| `TextRuns.RunsAreReadable` | src/input.c:1129-1399 | a run without those ends on the text, and every key of it that steps back finds the bytes it reads |
| `TextRuns.RunsFromStart` | src/input.c:1129-1399 | the same for every run from the start, on an empty buffer or a loaded file |
| `KillYank.KillRegionGives` | src/input.c:843-866 | kill-region removes the text between mark and cursor, puts the cursor at the earlier end, and pushes that text |
| `KillYank.KillRegionRemoves` | src/input.c:84-131 | kill-region removes what it rings up if and only if the mark is on a row of the buffer; otherwise it removes nothing and rings up the rest of the text with a newline for every row gone |
| `KillYank.KillThenYank` | src/input.c:799-866 | C-w and C-y restore the lines exactly, with the cursor at the later end and the region newest in the ring |
| `KillYank.KillLineThenYank` | src/input.c:1317-1342 | a fresh C-k inside a line and C-y restore the lines, with the cursor at the line end |
| `KillYank.KillWordForwardThenYank` | src/input.c:718-752 | which bytes a fresh M-d inside a line kills; C-y then restores the lines if and only if there was a space or a word at the cursor, or the ring is empty, and ends behind what was killed |
| `KillYank.WordForwardSpan` | src/input.c:733-751 | what M-d takes: all the spaces from the cursor on and then all the word characters, and no more |
| `KillYank.KillWordBackwardThenYank` | src/input.c:754-797 | the same for a fresh M-Backspace past the start of a line, from any cursor |
| `KillYank.WordBackwardSpan` | src/input.c:772-796 | what M-Backspace takes: the same backward |
| `KillYank.KillNewlineDeletesOne` | src/input.c:694-716 | C-k at a line end removes exactly that newline from the text, but rings up the newline and the whole next line |
| `KillYank.KillNewlineThenYank` | src/input.c:1317-1342 | a fresh C-k at a line end and C-y restore the lines if and only if the next line is empty; otherwise, with the cursor on the text, that line is there twice; the cursor ends behind it; on the last line they come back if and only if the ring is empty |
| `KillYank.KillWordForwardAtEnd` | src/input.c:718-733 | the same for a fresh M-d at a line end |
| `KillYank.KillWordBackwardAtStart` | src/input.c:754-772 | the same for a fresh M-Backspace at a line start, about the line it is in |
| `KillYank.RotateOnce` | src/input.c:949-970 | one rotation replaces the inserted entry by the next one, at the same place, and saves its two ends |
| `KillYank.RotationsCycle` | src/input.c:799-821 | after a yank into any text, k rotations leave that text with the (k mod length)-th most recent entry inserted at the same place, delimited by the saved ends |
| `KeyRuns.GesturesRun` | src/input.c:1293-1310 | typing motions (control keys, arrows, M-f, M-b) moves the cursor by just those motions, in order, and changes nothing else |
| `KeyRuns.SetMoveKillYank` | src/input.c:1129-1399 | typing C-Space, any motions (control keys, arrows, M-f, M-b), C-w and C-y leaves the lines, puts the cursor at the later end and the region in the ring, whatever the flags were |
| `KeyRuns.KillLineRun` | src/input.c:1317-1342 | the same for C-k and C-y as typed keys |
| `KeyRuns.KillWordForwardRun` | src/input.c:1129-1399 | the same for ESC d and C-y as typed bytes, with the same exact condition and the final cursor |
| `KeyRuns.KillWordBackwardRun` | src/input.c:1129-1399 | the same for ESC Backspace and C-y |
| `KeyRuns.KillNewlineRun` | src/input.c:1317-1342 | C-k at a line end and C-y as typed keys, with the same exact condition |
| `KeyRuns.KillWordForwardAtEndRun` | src/input.c:718-733 | ESC d and C-y at a line end, whatever the flags were |
| `KeyRuns.KillWordBackwardAtStartRun` | src/input.c:754-772 | ESC Backspace and C-y at a line start, whatever the flags were |
| `Counterexamples.DoublingRun` | src/input.c:694-716 | five keys from the empty buffer after which a line that was typed with one letter has two |
| `KeyRuns.TypedRotationDoesNothing` | src/input.c:1148-1151 | the bytes ESC y only clear the two flags, in any state without a mode |
| `KillHistory.NoRunRotates` | src/input.c:949-970 | in no state that a run of keys reaches does the key after ESC rotate: it leaves text, cursor and ring alone |
| `KillHistory.StepPushes` | src/input.c:1129-1399 | every key pushes exactly the text it kills, fresh or appending, and does nothing else to the ring |
| `KillHistory.RingHoldsHistory` | src/input.c:666-692 | in every state that a run of keys reaches the ring holds the newest of all the kills made so far, slot by slot |
| `KillHistory.FlagSaysKilled` | src/input.c:1129-1399 | after any key the kill flag is up if and only if that key was a kill, or was one of those that return early and the flag was up |
| `KeyRuns.TypedWordKillIsFresh` | src/input.c:718-752 | what the bytes ESC d kill, if anything, becomes a new first entry before the older ones; otherwise the ring is unchanged |
| `KeyRuns.TypedBackwardKillIsFresh` | src/input.c:754-797 | the same for ESC Backspace |
| `KeyRuns.KillRegionStrands` | src/input.c:843-866 | after kill-region the cursor is past its line if and only if what is left of the later row does not reach the column of the earlier end; a mark on a row that is gone moves nothing |
| `Counterexamples.StrandingRun` | src/input.c:843-866 | five keys from the empty buffer after which it is |
| `Counterexamples.StaleRun` | src/input.c:843-866 | four keys from the empty buffer, the last a C-w that rings up a newline and removes nothing |
| `KeyRuns.BackspaceLands` | src/input.c:1352-1358 | after Backspace in a line the cursor is on the greatest boundary of the edited line below the old column |
| `KeyRuns.BackspaceAtEditPoint` | src/input.c:1352-1358 | that is the edit point if and only if the cursor was at the line end, or the bytes after it, as many as make the width of the deleted sequence, are continuation bytes; from inside a sequence only at the line start |
| `Counterexamples.MissingRun` | src/input.c:1352-1358 | five keys from the empty buffer, the last a Backspace, after which the cursor is one column past the edit point |
| `KeyRuns.BackspaceJoins` | src/input.c:1352-1358 | at a line start Backspace deletes the newline and sends the cursor to the end of the joined line, which is the edit point if and only if the line was empty |
| `Reports.WrittenIsRead` | src/input.c:979-992 | the three numbers of a report written in decimal are read back, up to the largest long |
| `Reports.SignedIsRead` | src/input.c:979-992 | white space and a sign before a number count, and the result is clamped to a long |
| `KeyRuns.ReportRun` | src/input.c:1058-1127 | typing ESC [ <, three numbers and M or m does to the text exactly what those numbers mean, in any state without a mode |
| `KeyRuns.PressRun` | src/input.c:1015-1035 | a press report over a cell of the window puts the cursor on the text there and starts a region at that cell |
| `KeyRuns.SelectRun` | src/input.c:1015-1035 | a press and a release leave a region from the one cell to the other, and none if and only if they are the same cell of the text |
| `KeyRuns.DragRun` | src/input.c:1038-1053 | a drag report puts the cursor on the cell, and the mark where the cursor was unless there is a mark |
| `KeyRuns.TurnRun` | src/input.c:998-1015 | a turn of the wheel takes the cursor a row up or down in its column, exactly when window and text have a row there |
| `KeyRuns.ElsewhereRun` | src/input.c:994-1056 | a report from outside the rows of the text, or of another button, clears the two flags and does nothing else |
| `KeyRuns.OverlongReport` | src/input.c:1119-1124 | the byte of a report that does not fit the buffer of 31 bytes ends the sequence and does nothing |
| `KeyRuns.BrokenSequence` | src/input.c:1110-1111 | after ESC and [ a key that continues no sequence does what it does alone |
| `KeyRuns.MetaIgnoresCase` | src/input.c:876-880 | after ESC the case of a letter does not matter |
| `KeyRuns.PrefixEnds` | src/input.c:1243-1262 | a key of the text after C-x does what it does without it |
| `Counterexamples.WheelRun` | src/input.c:1007-1015 | three keys and one wheel report from the empty buffer after which the cursor is past the end of its line |
| `Saving.StepIsHonest` | src/input.c:1129-1399 | if a flag that is down means that the text is the stored one (last started with, loaded or saved), then so it does after any key, unless and only unless that key selects a file that does not open over another text |
| `Saving.CleanMeansStored` | src/input.c:1129-1399 | hence over every run from the start in which no key does that |
| `Saving.OpenFailsRun` | src/finder.c:697-726 | typing M-p and Return on a file that does not open leaves the text and clears the flag |
| `Saving.OpenRun` | src/finder.c:697-726 | typing M-p and Return on a file that opens gives the text of the file, the cursor at its start, and clears the flag |
| `Saving.SaveRun` | src/input.c:1243-1257 | C-x C-s writes a buffer that has a file and clears the flag if and only if that succeeds, and asks for a name otherwise |
| `Saving.PromptReturns` | src/input.c:1176-1200 | Return in the prompt closes it, and only with a name and a write that succeeds the flag falls and the buffer has a file |
| `Saving.FinderCloses` | src/finder.c:570-726 | in the finder only C-g and Return close it, and only Return touches the text |
| `Saving.LeavesIff` | src/input.c:1258-1261 | a key makes the editor leave if and only if it is C-c right after C-x in the text |
| `Counterexamples.ForgettingRun` | src/finder.c:697-726 | four bytes from the empty buffer after which the flag is down and the text is stored nowhere |
| `SearchRuns.SearchStep` | src/input.c:492-534 | a key that leaves search active changes neither text, mark, ring nor origin |
| `SearchRuns.SearchOpens` | src/input.c:414-425 | C-s and C-r begin a search at the cursor, with no query |
| `SearchRuns.EveryMatchIsHit` | src/input.c:442-534 | in every state that a run of keys reaches, a search that reports a match stands on an occurrence of its query |
| `SearchRuns.ReturnStays` | src/input.c:499-502 | Return ends the search and leaves the cursor where it is, and the text too |
| `SearchRuns.OtherKeyLeaves` | src/input.c:503-534 | a control key that is none of the search's own ends it and does what it does without a search |
| `SearchRuns.FailureStays` | src/input.c:442-480 | a longer query that occurs nowhere from the origin on leaves the cursor and says that it failed |
| `SearchRuns.ErasingSearches` | src/input.c:482-490 | erasing takes the last character off any query and searches for the rest from the origin; with nothing left the cursor is back there |
| `SearchRuns.FullQuery` | src/input.c:524-531 | a query of 255 bytes takes no more |
| `SearchRuns.CancelRestores` | src/input.c:414-440 | any run of keys inside search followed by C-g restores the cursor exactly and leaves the buffer as it was |
| `SearchRuns.NextHit` | src/input.c:442-480 | for a query that starts with no continuation byte, the search from the boundary after a hit finds the very next occurrence |
| `SearchRuns.TypingSearches` | src/input.c:442-534 | typing a character into a forward search leaves the cursor on the first occurrence at or after the origin, or the search failed: the state from which repeats count |
| `SearchRuns.RepeatedSearchVisitsAll` | src/input.c:442-534 | n presses of C-s visit the n-th of all occurrences at or after the origin, in increasing order, then fail once, then start again at the origin |
| `SearchRuns.BackwardRepeatDecreases` | src/input.c:453-463 | a backward repeat that finds something finds it strictly earlier |
| `SearchRuns.TypingSearchesBack` | src/input.c:442-534 | the same for a backward search |
| `SearchRuns.RepeatedSearchGoesBack` | src/input.c:453-463 | n presses of C-r go through that chain of hits from the origin, strictly back, then fail once, then start again, for any query |
| `SearchRuns.TypeThenBackspace` | src/input.c:482-530 | typing one character and erasing it returns to the same cursor and query, in both directions |
| `Editors.Editor.InsertBytes` | src/input.c:799-821 | the byte-by-byte loop inserts the whole text and moves the cursor over it |
| `Editors.Editor.CopyRegionText` | src/input.c:84-131 | the copied text is the text of the region |
| `Editors.Editor.DoKillRegion` | src/input.c:843-866 | the fields go to the killed state |
| `Editors.Editor.DoKillWordForward` | src/input.c:718-752 | the fields go to the state with the word killed |
| `Editors.Editor.DoKillWordBackward` | src/input.c:754-797 | the fields go to the state with the word killed |
| `Editors.Editor.RotateYank` | src/input.c:949-967 | deleting the saved span and yanking the entry before gives the rotated state |
| `Editors.Editor.HandleMetaKey` | src/input.c:876-977 | handled or not, and the new state, for every key and mode |
| `Editors.Editor.HandleEscape` | src/input.c:1058-1127 | handled or not, and the new state, for every escape state |
| `Editors.Editor.HandleMouseEvent` | src/input.c:979-1056 | the numbers are parsed from the buffered bytes; a report is handled unless malformed, and wheel, press, release and drag move cursor and mark as specified |
| `Editors.Editor.IsearchFind` | src/input.c:442-480 | the cursor, match flag and result of a search step |
| `Editors.Editor.IsearchHandleKey` | src/input.c:492-534 | the new search state, and whether the key was taken |
| `Editors.Editor.ProcessKey` | src/input.c:1129-1399 | one key takes the whole state of the editor to the specified step and keeps every invariant |
| `Editors.Editor.ProcessKeys` | src/input.c:1129-1399 | a run of keys takes it to the state of the specified run |
| `Rendering.ExpandCat` | src/render.c:469-484 | expanding two pieces one after the other, the second from where the first ends, expands the whole |
| `Rendering.WidthFromZero` | src/render.c:549-552 | a width measured from column 0 is right if and only if there is no tab or drawing starts at a tab stop |
| `Rendering.AppendBuf.AppendExpandingTabs` | src/render.c:469-484 | the loop appends exactly the expanded text |
| `Rendering.Top` | src/render.c:486-535 | the covering span of greatest priority, the later one among equals; none if and only if no span covers |
| `Rendering.TopIsUnique` | src/render.c:486-535 | no other span satisfies that |
| `Rendering.PaintRow` | src/render.c:486-535 | after painting all the spans every byte has the colour of its top span |
| `Rendering.DrawnIsHighlighted` | src/render.c:486-566 | read back from the output alone (the last code before each cell), every byte of the slice stands under the code of the top span that covers it, and under the plain one where none does; the same cells are what tab expansion makes of it |
| `Rendering.ExpandedShows` | src/render.c:469-484 | an expanded text shows its bytes, each by its own cells: a tab by spaces, any other by itself |
| `Rendering.SegmentsAreSlice` | src/render.c:536-566 | the runs are not empty, uniformly coloured as painted, and concatenate to the slice |
| `Rendering.SegmentsAlternate` | src/render.c:536-566 | neighbouring runs differ in colour, so there are as few as possible |
| `Rendering.ExpandInPlace` | src/render.c:469-484 | a text drawn at a measured column looks as it does where it stands if and only if it has no tab or the columns agree modulo 8 |
| `Rendering.DrawnAsPlainIff` | src/render.c:536-566 | every run is drawn as in the plain line if and only if every run has no tab or its measured column agrees modulo 8 |
| `Rendering.HighlightedLooksPlain` | src/render.c:469-566 | then the coloured output without its codes is the plain expanded slice |
| `Rendering.WhenRunsAreInPlace` | src/render.c:536-566 | that holds when tabs only lead, and whenever no run with a tab that starts off a tab stop is followed by another tab |
| `Rendering.InteriorTabsDiffer` | src/render.c:536-566 | a line of five bytes with one highlighted run for which it does not: 16 cells are drawn where the plain line has 17 |
| `Rendering.RenderLineWithSpans` | src/render.c:486-566 | the method appends exactly the runs of the visible slice, every byte shown under the code of the top span that covers it and under the plain one elsewhere |
| `Screens.SelectionRangeForRow` | src/render.c:568-608 | the range of a row holds exactly the columns between mark and cursor in text order |
| `Screens.SelectedColumns` | src/render.c:733-742 | the clamped range selects exactly the bytes of the row that are in the region |
| `Screens.SelectionIsRegionText` | src/render.c:568-608 | the selected bytes of the rows, joined with newlines, are the text that copy and kill put in the ring, rows that are gone counting as empty |
| `Screens.ClippedLineFits` | src/render.c:704-731 | the clipped line fills at most the columns of the screen, and the next byte would not fit |
| `Screens.PiecesInPlaceIff` | src/render.c:743-777 | the three pieces are drawn as in the plain line if and only if drawing starts at a tab stop or no tab precedes a piece that has one |
| `Screens.SelectedLooksPlain` | src/render.c:743-777 | then the pieces without their codes are the plain expanded line |
| `Screens.LineShows` | src/render.c:704-777 | read back from the output, exactly the bytes of the region stand under the reverse code, and in a highlighted line every byte under the colour of its top span |
| `Screens.DrawLine` | src/render.c:704-790 | the drawn line: clipping, selection and colours together; read back from the output, the bytes shown reversed are exactly the selected ones |
| `Screens.ClickFindsByte` | src/input.c:1015-1023 | a click n cells from the edge of a window at byte b goes to byte b + n, and the byte drawn there is that one if and only if every tab between is one cell wide; past the text, if and only if the text ends before |
| `Screens.ClickLands` | src/input.c:1015-1035 | then the cursor goes to the character drawn under the click, and for text without continuation bytes only then |
| `Screens.TypedClickLands` | src/input.c:979-1056 | the same for the bytes of a press report |
| `Screens.ClickMissesTab` | src/input.c:1015-1035 | a line with a tab and a click that misses it |
| `Scrolling.OffsetShowsCursor` | src/render.c:629-645 | any old column offset leads to one that shows the cursor within cols + 7 cells, on a boundary of well-formed text |
| `Scrolling.OffsetShowsAscii` | src/render.c:629-645 | within cols cells when the line is ASCII without tabs |
| `Scrolling.OffsetMoves` | src/render.c:629-645 | the offset moves no further than it must: it stays while the cursor shows, goes to the cursor when that is to the left, and otherwise to the greatest boundary that leaves the cursor in the last cell or beyond |
| `Scrolling.Window.Scroll` | src/render.c:610-646 | after scrolling the cursor is inside the window, by rows and by columns |
| `Scrolling.Window.ScrollRows` | src/render.c:610-628 | the row offset is the nearest to the old one that shows the cursor and wastes no rows |
| `Ignoring.SlashedRule` | src/finder.c:302-336 | a rule with a slash matches if and only if the path relative to its directory is not empty and matches the pattern |
| `Ignoring.UnslashedRule` | src/finder.c:294-336 | a rule without a slash is tried on the entry's own name |
| `Ignoring.IgnoreList.IsIgnored` | src/finder.c:338-347 | the loop decides that a rule which is not negated matches and none after it does |
| `Ignoring.IgnoreList.Truncate` | src/finder.c:68-73 | the list keeps its first rules |
| `Ignoring.ParsedIsWritten` | src/finder.c:204-264 | the rule read from a line, written out again, is that line trimmed, and reads as the same rule |
| `Ignoring.NoRuleIff` | src/finder.c:219-253 | a line gives no rule if and only if it is blank, a comment, or nothing but the marks around a pattern |
| `Ignoring.MarkCharacters` | src/finder.c:204-253 | the marks and the white space by their characters |
| `Ignoring.ParseLine` | src/finder.c:204-264 | trimming and taking off the marks one by one reads that rule |
| `Ignoring.IgnoreList.Load` | src/finder.c:266-292 | the list gains the rules of the lines of the file, in order, based at its directory, and their number is returned |
| `Scanning.FoundIffListed` | src/finder.c:366-429 | the scan of any tree finds a file if and only if it is reached through readable directories and no path on the way, its own included, is ignored by the rules of the enclosing directories |
| `Scanning.PathIsSlashed` | src/finder.c:393-400 | the path of a file is the names on the way to it, joined with slashes |
| `Scanning.NoGitOnTheWay` | src/finder.c:385-391 | no name on the way to a file that is found is `.git`, `.` or `..` |
| `Scanning.ScanIsDepthFirst` | src/finder.c:366-429 | a sequence is what the scan finds if and only if it holds exactly those files, in strict depth-first order |
| `Finders.Finder.ScanDir` | src/finder.c:366-429 | the recursion over the shared list appends exactly those files and leaves the list as it found it |
| `Finders.Finder.LoadProject` | src/finder.c:728-734 | opening a project lists the files of a scan that starts without rules |
| `Fuzzy.LeftmostIsAhead` | src/finder.c:442-461 | the greedy positions are nowhere later than those of any other embedding |
| `Fuzzy.PlacesByLetters` | src/finder.c:442-447 | an embedding is a strictly increasing choice of places whose bytes equal those of the pattern or are their other case |
| `Fuzzy.ScoreCounts` | src/finder.c:431-467 | a pattern that occurs scores ten points a byte, six for each place right after the one before, four for each at the start of a word, less the bytes left over, for the embedding that is earliest everywhere |
| `Fuzzy.FuzzyScore` | src/finder.c:431-467 | the result is the score of the leftmost embedding (bonuses for runs and word starts, less the bytes that are left over), -1 when the pattern is no case-folded subsequence of the text, 0 when it is empty |
| `Fuzzy.ScoreIsUnique` | src/finder.c:431-467 | a pattern and a text have one score |
| `Fuzzy.WhenListed` | src/finder.c:431-467 | for pattern length m and text length n: a score that is not negative needs a match and n at most 21m - 6; a match with n at most 11m has one |
| `Fuzzy.LongestListed` | src/finder.c:431-467 | for every m some pattern of length m and text of length 21m - 6 score 0: the upper bound is sharp |
| `Fuzzy.ShortestUnlisted` | src/finder.c:431-467 | for every m some matching text of length 11m + 1 scores -1: the lower bound is sharp |
| `Finders.CompareIsOrder` | src/finder.c:469-482 | the comparison is a strict total order: score down, then index up |
| `Finders.RankingIsUnique` | src/finder.c:494-543 | only one list is ranked for a query and a file list |
| `Finders.WhichFilesAreListed` | src/finder.c:494-543 | which files are in the list, by length and subsequence |
| `Finders.ListedOnce` | src/finder.c:494-543 | no file is in it twice |
| `Finders.Finder.UpdateMatches` | src/finder.c:494-543 | the new match list is the ranked one, with the selection at its top |
| `Finders.Finder.Open` | src/finder.c:736-760 | when files are scanned again and when kept; a fresh finder lists them all, in scan order |
| `Finders.Finder.MoveSelection` | src/finder.c:570-695 | the selection moves by delta within the list and is among the rows shown, whatever size the window has by now |
| `Base64.DecodeEncode` | src/util.c:9-30 | a strict decoder for section 4 of RFC 4648 gives back every byte string |
| `Base64.EncodeDecode` | src/util.c:9-30 | whatever that decoder accepts is the encoding of what it yields |
| `Base64.EncodedLength` | src/util.c:9-30 | the length is four times a third of the input's, rounded up |
| `Base64.TableIsDigits` | src/util.c:10-11 | the table lists the digits of the alphabet by value |
| `Base64.TripleHasParts` | src/util.c:23-27 | the shifts and masks of the triple give the four six-bit parts |
| `Base64.Base64Encode` | src/util.c:9-30 | the loop writes the encoding and a NUL into a fresh buffer of exactly that size |

## Left out

- Terminal setup, signals, poll, read and write, the OSC 52 sequence, the window size and allocation failure: calls into the system.
- Tree-sitter parsing and queries, and how captures become spans (src/render.c:371-463): the spans of a row are given, sorted or not.
- Status bar, modal borders, colour tables and status messages: fixed strings.
- The one-line editors of the prompt and of the finder's query: easy duplicates of the buffer edits; a key in a prompt or in the finder is modelled by what it does to the modes, the files and the text.
- The offsets and the size of the window are data that come with each key: that the wheel moves the window too, and that drawing scrolls it, is not part of the state that runs go through (`Scroll.dfy` models scrolling on its own).
- `Editors.Editor.ProcessKey`: requires the cursor on the text for the keys that step it back. Past the end of a line the source reads memory behind the line there, which is not a byte of the buffer; `EditorSpec.Step` itself is defined there too, and counts such a byte as NUL.
- `Editors.Editor.HandleEscape`: the same requirement, for the left arrow.
- `Editors.Editor.ProcessKeys`: the same requirement, for every key of the run.
- `Motions.Frame.MovePrevChar`: the same requirement.
- `Utf8.FindPrevBoundary`: requires a column on the line, for the same reason.
- `KeyRuns.ReportRun`: for reports that fit the escape buffer of 31 bytes; what the byte that does not fit does is said by `KeyRuns.OverlongReport`.
- A mark on a row that is gone: the source fetches a line pointer from behind the array and does not use it, because the length of such a row is 0; the model takes the row as empty.
- `KillYank.KillThenYank`: requires mark and cursor on the text, and that the kill does not extend the one before; the same for the theorems about runs built on it.
- `KillYank.KillNewlineDeletesOne`: states the text effect and the ring entry; what a yank after it gives is said by `KillYank.KillNewlineThenYank`.
- `Motions.NextWordStops`: does not say "the end of the next word": a word that ends a line lets the motion go on into the next one.
- `Rendering.HighlightedLooksPlain`: for runs that are all in place. Run by run that is exact; for the line as a whole it is sufficient, since the errors of two misplaced runs may cancel.
- `Screens.SelectedLooksPlain`: likewise for the three pieces of a line with a selection.
- `Scrolling.Window.Scroll`: the column bound is for well-formed UTF-8, section 4 of RFC 3629, with the cursor on a boundary, and for ASCII; the window has at least one column.
- The search for the project root, and reading ignore files: the root, its tree and the lines of the ignore files are given.
- Symbolic-link cycles: the directory tree is finite.
- `Finders.Finder.UpdateMatches`: the library sort is replaced by an insertion sort on a value; by `Finders.RankingIsUnique` any correct sort gives the same list. The scratch array of scored matches is a value too.
- `Fuzzy.FuzzyScore`: the score is an unbounded integer; int overflow, which needs paths of about two thousand million bytes, is not modelled.
- `Base64.Base64Encode`: shifts and masks are written as division and remainder, and the length computation does not wrap.
- Growing of arrays by doubling (lines, files, rules, output): such an array is a sequence that the methods reassign, so reallocation and aliasing are not modelled. The kill ring, the colours and priorities of a row, the line offsets and the base 64 output are arrays.
