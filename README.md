# go-notes picker core in Dafny

This project models the logic of `notes`. `notes` is a terminal picker for note files. It
lists the catalog of notes found at start-up. It narrows the list while the user types a
query, moves a cursor over the listed notes, and hands the chosen note to an editor. All of
this logic lives in `cmd/notes/notes.go`.

The model has five modules. `Subsequences` (`subsequences.dfy`) is not a part of the program:
it is the reference meaning of "q occurs in s in order" that the matcher is proved against,
an embedding, that is, strictly increasing positions of `s` that spell out `q`. The other four
follow the program's components:

- `Slices` (`slices.dfy`) models the generic `Map` and `Filter` helpers as loops. `Filtered`
  is the function that specifies `Filter`.
- `Matcher` (`matcher.dfy`) models `isMatching`.
  - `Matches` is the recursion that greedily consumes the candidate.
  - `IsMatching` is the loop itself.
  - `IndexRune` models `strings.IndexRune`.
  - `View` is the catalog filtered by a query.
- `QueryBuffer` (`querybuffer.dfy`) models the `Input` struct as a class whose `text` field
  is reassigned by `Append` and `Pop`.
- `Picker` (`picker.dfy`) models the state that `main` keeps as the class `Session`.
  - The state is the catalog, the query buffer, the listed notes (`filtered`) and the
    package-level `selection`.
  - The methods are the three edit closures and the event `switch` (`Step`).
  - `Run` is the main loop over a finite list of frames. A frame is a terminal height and
    an event.
  - Beside the class, the same switch and loop are written as functions on a state value.
    `Next` takes a `Screen` (the query text and the cursor) and an event, and returns the
    new `Screen` and the outcome. `RunFrom` folds `Next` over the frames. It collects the
    opened notes and stops at the first exit or out-of-range panic. The listed notes are not
    part of `Screen`, because in every valid state they are the catalog filtered by the
    query, and `Next` filters again where it needs them.

The valid states are stated in two predicates:

- `Valid` says that the listed notes are always the catalog filtered by the current query.
  It also says that the cursor is never past the last listed note.
- `InBounds` says that the cursor is an index of the list whenever the list is non-empty.

`Step` changes the query and the cursor exactly as `Next` says, and returns the outcome
`Next` gives. It preserves `InBounds` except when ArrowDown is pressed on a terminal less
than two rows high. `Run` also returns the (ghost) index of the frame where the loop
stopped. Its final query and cursor, the notes it opened and its status are exactly
`RunFrom` of the starting state. The lemmas about `RunFrom` give the following properties
of `Run`:

- It stops in one of three places: where the frames run out (`Waiting`), at a Ctrl-Q
  (`Quit`), or at an Enter that indexes the list out of range (`Crashed`). It stops at the
  first Ctrl-Q: no frame before the stop is one, so `Waiting` means the frames hold none.
- A crash is always preceded by an ArrowDown on a terminal less than two rows high. So a
  run whose frames all have a height of at least two never crashes.
- Every note handed to the editor comes from the catalog, and there are no more of them than
  Enter events before the stop.
- At the end the cursor is on a listed note (or the list is empty), unless some frame before
  the stop was an ArrowDown on a terminal less than two rows high. With every height at
  least two, it always ends in bounds.

Client methods exercise the model on concrete states:

- `ExampleSession` and `ExampleBackspace` replay the worked example. The catalog is
  "alpha.n", "beta.n", "abcx.n". Typing "ab" keeps only "abcx.n", and Backspace brings
  back all three. `ExampleSingleNote` shows that ArrowDown on a one-note list keeps the
  cursor on that note and that Enter then opens it.
- `ExampleEmptyList` and `ExampleShortTerminal` show how the code leaves the cursor
  negative.

### Behaviour kept as the code has it

In a few places the code does less than a picker is usually expected to do. The model
follows the code:

- One would expect the cursor to stay at 0 on an empty list. The code runs `selection++`
  and then clamps to `len(filtered)-1`, so ArrowDown on an empty list sets the cursor to -1,
  or to `height-2` if that is lower (`cmd/notes/notes.go:213-219`). This is harmless because Enter does nothing on an empty
  list.
- The code also clamps to `height-2` (`cmd/notes/notes.go:217-219`). On a terminal with
  fewer than two rows, this makes the cursor negative even over a non-empty list. Enter then
  evaluates `filtered[selection]` with a negative index, which is a run-time panic in Go.
  `Step` reports that panic as the outcome `OutOfRange`. `ExampleShortTerminal` builds the
  case: a non-empty list, ArrowDown on a one-row terminal, then Enter.
- One would expect the cursor to be re-clamped when the terminal is resized. In the code
  only ArrowDown clamps, so the bound `selection <= height-2` holds only right after
  ArrowDown.
- Clearing the query does not filter again. It sets the list to the whole catalog
  (`cmd/notes/notes.go:182`). `ViewEmptyQuery` proves that this equals filtering by the
  empty query.

## Model

| member | source | states |
|---|---|---|
| `Slices.Map` | cmd/notes/notes.go:23-29 | the result has the length of the input, and each element is the callback applied to the element at the same position |
| `Slices.Filtered` | cmd/notes/notes.go:32-39 | the filtered result is no longer than the input and every element it holds satisfies the callback |
| `Slices.Filter` | cmd/notes/notes.go:32-39 | the append loop produces exactly `Filtered(a, cb)`, the elements that satisfy the callback in their original order |
| `Slices.FilterKeepsExactly` | cmd/notes/notes.go:32-39 | the result is an order-preserving embedding into the input that keeps a position if and only if its element satisfies the callback, so it is a subsequence of the input |
| `Slices.FilterMembers` | cmd/notes/notes.go:32-39 | a value is in the result if and only if it is in the input and satisfies the callback |
| `Slices.FilterKeepsAll` | cmd/notes/notes.go:32-39 | filtering a slice whose elements all satisfy the callback returns it unchanged |
| `Slices.FilterIdempotent` | cmd/notes/notes.go:32-39 | filtering the result again with the same callback returns the same result |
| `Matcher.IndexRune` | cmd/notes/notes.go:121-124 | the position found holds the rune and no earlier position does; -1 exactly when the rune does not occur |
| `Matcher.IsMatching` | cmd/notes/notes.go:119-128 | the loop returns true if and only if the query text is a subsequence of the candidate |
| `Matcher.MatchesSound` | cmd/notes/notes.go:119-128 | when greedy first-occurrence matching succeeds, the query is a subsequence of the candidate |
| `Matcher.MatchesComplete` | cmd/notes/notes.go:119-128 | whenever the query is a subsequence of the candidate, greedy first-occurrence matching succeeds |
| `Matcher.MatchesIffSubsequence` | cmd/notes/notes.go:119-128 | isMatching holds if and only if the query is a subsequence of the candidate, matching exact characters in order |
| `Matcher.Matches` | cmd/notes/notes.go:119-128 | the greedy matcher as a recursion over the query: the first occurrence of the next query rune is looked up in what is left of the candidate, and everything up to it is dropped; a successful match needs a candidate at least as long as the query |
| `Matcher.MatcherFor` | cmd/notes/notes.go:169 | the `isMatching` callback for the current query text; it accepts a candidate exactly when the query is a subsequence of it |
| `Matcher.View` | cmd/notes/notes.go:169 | the catalog filtered by the query (the `Filter(notes, isMatching)` result of `inputAppend` and `inputPop`); it is no longer than the catalog and the query is a subsequence of every note it lists |
| `Matcher.ViewMembers` | cmd/notes/notes.go:169 | a note is listed if and only if it is in the catalog and the query is a subsequence of it |
| `Matcher.ViewKeepsExactly` | cmd/notes/notes.go:169 | the listed notes are exactly the matching catalog positions, in catalog order, and are no more than the catalog |
| `Matcher.ViewEmptyQuery` | cmd/notes/notes.go:180-184 | with an empty query every note matches, so the list is the whole catalog, as `inputClear` and the start-up state assume |
| `Matcher.ViewIdempotent` | cmd/notes/notes.go:169 | filtering the listed notes again by the same query changes nothing |
| `Matcher.ExampleViews` | cmd/notes/notes.go:119-128 | on "alpha.n", "beta.n", "abcx.n": the empty query and "a" keep all three notes, and "ab" keeps only "abcx.n" |
| `QueryBuffer.Input.constructor` | cmd/notes/notes.go:84 | the query starts empty |
| `QueryBuffer.Input.Append` | cmd/notes/notes.go:63-65 | the rune is added at the end and the rest of the query is unchanged |
| `QueryBuffer.Input.Pop` | cmd/notes/notes.go:68-75 | on an empty query it returns rune 0 and changes nothing; otherwise it returns the last rune and leaves exactly the prefix before it |
| `QueryBuffer.AppendThenPop` | cmd/notes/notes.go:63-75 | Append then Pop returns the appended rune and restores the query |
| `Picker.Session.constructor` | cmd/notes/notes.go:164-165 | start-up state: empty query, whole catalog listed, cursor 0; the state is valid and the cursor in bounds |
| `Picker.Session.InputAppend` | cmd/notes/notes.go:167-171 | the rune is appended, the list is the catalog filtered by the new query, and the cursor is 0 |
| `Picker.Session.InputPop` | cmd/notes/notes.go:173-178 | the last rune (or rune 0 on an empty query) is removed and returned, the list is filtered again, and the cursor is 0 |
| `Picker.Session.InputClear` | cmd/notes/notes.go:180-184 | the query is empty, the list is the catalog (equal to filtering by the empty query), and the cursor is 0 |
| `Picker.NextOutcome` | cmd/notes/notes.go:200-248 | an event exits the loop if and only if it is Ctrl-Q, and only Enter opens a note or indexes the list out of range |
| `Picker.NextByKey` | cmd/notes/notes.go:200-245 | per key: ArrowUp moves the cursor up, not below 0; ArrowDown moves it down by one, clamped to at most `len(filtered)-1` and `height-2`; arrows keep the query; Enter keeps the state, does nothing on an empty list, and otherwise opens `filtered[selection]` or indexes out of range on a negative cursor; Backspace drops the last rune and Esc/Ctrl-W clear the query, both only on a non-empty query; Space appends ' '; other keys append their character unless it is rune 0; every edit puts the cursor on row 0 |
| `Picker.NextKeepsCursor` | cmd/notes/notes.go:200-245 | no event moves the cursor past the last listed note, and an opened note is in the catalog and matches the query |
| `Picker.NextKeepsDesignates` | cmd/notes/notes.go:206-244 | from a cursor on a listed note, every event except ArrowDown on a terminal under two rows keeps it on a listed note, and no event then indexes out of range |
| `Picker.RunFrom` | cmd/notes/notes.go:194-249 | the loop on a state value, folding `Next` over the frames; it stops before the frames run out exactly when the status is not `Waiting` |
| `Picker.ResumeStep` | cmd/notes/notes.go:194-249 | one more turn of a run under way: an exit or a panic ends the run at that frame with the notes opened so far, and otherwise the run goes on from the new state with the opened note (if any) appended |
| `Picker.RunFromStops` | cmd/notes/notes.go:194-249 | a run stops at the first Ctrl-Q (`Quit`), at an Enter (`Crashed`), or when the frames run out (`Waiting`); no frame before the stop is a Ctrl-Q; it opens at most one note per Enter before the stop |
| `Picker.RunFromCursor` | cmd/notes/notes.go:206-224 | from a cursor on a listed note, a run crashes or ends with the cursor off the list only after an ArrowDown on a terminal under two rows |
| `Picker.RunFromNeverCrashes` | cmd/notes/notes.go:194-249 | with every height at least 2, a run from a cursor on a listed note never crashes and ends with the cursor on a listed note |
| `Picker.RunFromOpensCatalog` | cmd/notes/notes.go:221-224 | every note a run hands to the editor is in the catalog |
| `Picker.Session.Step` | cmd/notes/notes.go:200-248 | the new query, cursor and outcome are exactly those of `Next` on the old query and cursor; the state stays valid (the list is the catalog filtered by the new query); the cursor stays in bounds unless ArrowDown meets a height below 2; an out-of-range outcome needs a cursor that was out of bounds; an opened note is listed and in the catalog; only Ctrl-Q exits and only Enter opens or panics |
| `Picker.Session.Loop` | cmd/notes/notes.go:194-249 | the loop keeps the state valid, and its final query and cursor, the notes it opened in order, its status and the frame it stopped at are exactly `RunFrom` of the starting state |
| `Picker.Session.Run` | cmd/notes/notes.go:194-249 | the final state, opened notes, status and stop are exactly `RunFrom` of the starting state; it stops at the first Ctrl-Q (`Quit`), at an Enter that indexes the list out of range (`Crashed`), or when the frames run out (`Waiting`), and no earlier frame is a Ctrl-Q; a crash comes after an ArrowDown on a terminal under two rows, so with every height at least 2 it never happens; every note opened is in the catalog, and there are at most as many as Enter events before the stop; the cursor ends in bounds unless such an ArrowDown came before the stop, and always with every height at least 2 |

## Left out

- Terminal drawing is not modelled: `printString`, `printRunes`, `Input.Paint` and `paint`
  (`cmd/notes/notes.go:41-55`, `77-105`). They write termbox cells and display widths and
  do not change the picker state. This includes the cut-off of the list at the terminal
  height.
- `openVim` (`cmd/notes/notes.go:130-145`) is not modelled. Launching the editor is the
  outcome `Open(note)` of `Step`, after which the loop resumes with its state unchanged.
  The editor process and its panics on failure are not modelled, and neither is the
  terminal hand-off.
- `LoadNotes` (`cmd/notes/notes.go:108-117`) is not modelled. It is a wrapper around a
  filesystem glob, and the catalog is a parameter of the `Picker` constructor instead.
  The only use of `Map` is inside `LoadNotes`. `Map` is modelled on its own.
- The start-up checks in `main` are not modelled (`cmd/notes/notes.go:148-162`, `186-192`):
  the `nvim` lookup, the argument check, `filepath.Abs`, and terminal initialisation.
- Polling and reading the terminal size are inputs: each frame of `Run` carries the height
  and the event.
- The `EventError` panic (`cmd/notes/notes.go:246-247`) is not modelled. All non-key events
  are the no-op `OtherEvent`.
- `Run` covers a finite prefix of the endless loop. It ends with `Waiting` when the frames
  run out.
- `Matcher.IndexRune`: positions are counted in characters. Go's `strings.IndexRune`
  returns a byte offset, and `isMatching` advances by `pos+1` bytes. These agree only for
  single-byte characters. Each candidate is taken as a sequence of characters with one
  position each, and the UTF-8 encoding is not modelled. For names in valid UTF-8 the Go
  result still agrees with this character model, with one exception: a query holding
  U+FFFD. After a match `a = a[pos+1:]` (`cmd/notes/notes.go:125`) can leave stray
  continuation bytes, and `strings.IndexRune` matches U+FFFD against invalid UTF-8. So the
  candidate "é" with the query "é\uFFFD" matches in Go but not in the model.
- `Matcher.IsMatching` is proved equal to `Matches`, but `Filter` receives `Matches` through
  `MatcherFor` rather than the loop. The callback of `Filter` is a function value, and a
  function value cannot run a method.
- A Go rune is a 32-bit integer, and here it is a Dafny `char`. Rune 0 is `'\0'`
  (`QueryBuffer.NoRune`).
