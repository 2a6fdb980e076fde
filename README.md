# typergame typing-session engine, modelled in Dafny

This project models the core of typergame, a terminal typing trainer written in Go. The
game joins a list of target words into a byte buffer (`srcBytes`) and keeps an equal-length
working copy (`modBytes`) that the player types over. It also keeps a cursor (`pos`), a
correctness map from index to `true`, and a word counter. One operation, `traverse`, edits
all of these. The screen redraw `refreshUI` centres a window of the buffer on the cursor,
and it also writes `'_'` into the working buffer over unverified spaces before the cursor.
The key loop of `main` sends each key to `traverse` and then redraws.

Modules, one per component:

- `Bytes` (bytes.dfy): Go's `byte` and `rune`, and the conversion `byte(r)`, which keeps the
  low 8 bits.
- `Words` (words.dfy): `words.String` is a method with a loop. It is proved equal to the
  recursive `Join`. A reference `Split`, with the semantics of `strings.Split(s, " ")`, is
  its inverse.
- `Editing` (editing.dfy): the session as a value (`Session`) and `traverse` as the
  function `Traverse`. All properties of one edit are lemmas about this function.
- `Rendering` (rendering.dfy): the parity fix, the window arithmetic, the `'_'` pass as the
  state function `Refresh`, and the printed row as `Layout`.
- `Game` (game.dfy): the class `GameState`. Its fields are `srcBytes` and `modBytes`
  (arrays), `pos`, `correctnessMap` and `wordCount`. The constructor models
  `NewGameState`. `Traverse` and `RefreshUI` update the fields in place and are proved to
  follow `Editing.Traverse` and `Rendering.Refresh` exactly. `Valid()` holds between calls.
  `RefreshUI` gets its parity fix and window bounds (gamestate.go:77-82, 95-113) by
  calling `OddDown` and `Window`, which carry the same branches as the Go code. The
  `'_'` pass stays an in-place loop over the array.
- `Driver` (driver.dfy): the key dispatch and `ProcessKeys`, the loop of `main` over a
  finite key sequence. It is proved to follow the fold `Replay`. The `Scenarios` module in
  the same file holds two worked examples.

Inputs: the terminal width and height and the key sequence are parameters. Words are the
bytes of Go strings (`seq<Byte>`).

The model follows the Go code as written, including where its behaviour looks unintended:

- `NewGameState` accepts an empty word list and builds empty buffers (gamestate.go:59-61).
  `traverse` and `refreshUI` index byte 0 and byte `pos` of the buffer
  (gamestate.go:140, 128, 151), so the model requires a non-empty buffer for them.
- A backward step restores `modBytes[pos]` before the correctness check
  (gamestate.go:154-159). So it always marks `pos` correct, and it counts a word when the
  target byte there is a space (gamestate.go:159-163).
- Correctness entries are only ever set to `true`, never back to `false` (gamestate.go:160).
- `refreshUI` has a value receiver, but the slice it copies shares the buffer, so its
  `'_'` writes change the working buffer (gamestate.go:70, 116-119).
- The window end is `pos + w/2`, exclusive, clamped to the length (gamestate.go:100-103, 129).

## Model

| member | source | states |
|---|---|---|
| `Bytes.ByteOf` | gamestate.go:151 | `byte(char)` keeps the low 8 bits: the result is in 0..255, congruent to the rune mod 256, and equal to it when the rune is in 0..255 |
| `Words.String` | word.go:8-15 | the loop collects the words in order, and the result is `Join` of the words with single spaces |
| `Words.Join` | word.go:14 | with two or more words, the text starts with the first word followed by one space; its other properties are the lemmas `JoinEmptyAndSingle`, `JoinSnoc`, `JoinLength` and `SplitJoin` |
| `Words.JoinEmptyAndSingle` | word.go:8-15 | an empty list gives the empty text; a single word gives that word unchanged |
| `Words.JoinSnoc` | word.go:10-14 | for a non-empty list, appending a word appends one space and then the word |
| `Words.JoinLength` | word.go:14 | for n >= 1 words, the text length is the sum of the word lengths plus n - 1 |
| `Words.SplitJoin` | word.go:14 | splitting the text on spaces gives back any non-empty list of space-free words |
| `Words.SplitJoinEmpty` | word.go:8-15 | the empty list does not round-trip: its text splits into one empty word |
| `Editing.Start` | gamestate.go:56-61 | the initial session keeps the given target, its working buffer equals the target, the cursor and counter are 0, nothing is marked correct, and the invariants hold |
| `Editing.Min` | gamestate.go:167 | `math.Min` on two integers: the result is at most both arguments and is one of them |
| `Editing.Traverse` | gamestate.go:134-169 | one edit never changes the target or the buffer length; with equal lengths the cursor ends in `[0, len-1]` for any `dir`; the map only gains true entries; the counter rises by 0 or 1; the invariants are preserved |
| `Editing.TraverseRejectsMismatch` | gamestate.go:135-137 | buffers of unequal length give `LengthMismatch` and no change |
| `Editing.TraverseUnderflow` | gamestate.go:139-143 | when `pos + dir < 0`, for any `dir`: only byte 0 is restored, `pos` becomes 0, the map and counter are untouched, and no error is returned |
| `Editing.TraverseInvalidDirection` | gamestate.go:145-147 | a `dir` other than 1 or -1 that does not underflow gives `InvalidDirection` and no change |
| `Editing.TraverseForward` | gamestate.go:149-167 | a forward step writes `byte(char)` at `pos`, leaves every other byte alone, and moves the cursor to `min(pos+1, len-1)` (it stays on the last byte) |
| `Editing.TraverseBackward` | gamestate.go:153-167 | a backward step at `pos > 0` restores bytes `pos` and `pos-1`, leaves every other byte alone, and decrements `pos`; it always marks `pos` correct, and it counts a word when the target byte at `pos` is a space |
| `Editing.TraverseBookkeeping` | gamestate.go:159-164 | after an accepted step, `pos` is marked iff it was marked before or its byte now matches; no other entry changes; the counter rises by exactly 1 iff the byte matches and the target byte is a space |
| `Editing.TraverseForwardMarks` | gamestate.go:150-160 | at an unmarked cursor, typing `ch` marks it iff `byte(ch)` equals the target byte |
| `Editing.TraverseMarksOnlyMatches` | gamestate.go:159-160 | an index becomes marked only at the cursor, and only when its working byte equals its target byte at that moment |
| `Rendering.OddDown` | gamestate.go:77-82 | after the parity fix the dimension is odd, and it is the input or one less (the input exactly when it was odd) |
| `Rendering.Window` | gamestate.go:95-113 | `0 <= start <= pos`, `endStart == pos + 1`, `end <= len`, and `pad + (pos - start) == half`; with `half >= 1` the tail slice is well formed and shorter than `half`; with `half == 0` its bounds are inverted |
| `Rendering.MaskSpaces` | gamestate.go:116-119 | the mask keeps the buffer length, leaves every byte outside `[start, stop)` alone, and changes a byte only from a space to `'_'`; `MaskSpacesStep` states that each loop step touches one index |
| `Rendering.MaskSpacesStep` | gamestate.go:116-119 | one more iteration of the `'_'` loop changes only the next index, to `'_'` exactly when it is an unmarked space |
| `Rendering.Refresh` | gamestate.go:116-121 | the redraw changes only the working buffer; in the window before the cursor, exactly the unmarked spaces become `'_'`; every other byte is unchanged; the invariants hold |
| `Rendering.RefreshLeavesNoBareSpace` | gamestate.go:116-119 | after a redraw, no unmarked byte in the window before the cursor is a space |
| `Rendering.RefreshIdempotent` | gamestate.go:116-119 | a second redraw at the same width changes nothing |
| `Rendering.Layout` | gamestate.go:115-130 | the pad plus the bytes before the cursor reach the caret's column; the lemma `LayoutCentered` states the rest of the row's shape |
| `Rendering.LayoutCentered` | gamestate.go:115-130 | the printed row puts the cursor byte in column `w/2`, the caret's column; the row fits in `w` columns; the row is exactly `modBytes[start..end]`; the red flags are the unmarked indices |
| `Game.GameState.constructor` | gamestate.go:59-61 | `srcBytes` is the joined words, `modBytes` is a fresh byte-for-byte copy, the cursor and counter are 0, the map is empty, and `Valid()` holds |
| `Game.GameState.Traverse` | gamestate.go:134-169 | the in-place edit of the arrays and fields yields exactly the state and error of `Editing.Traverse`, and it preserves `Valid()` |
| `Game.GameState.RefreshUI` | gamestate.go:70-131 | the in-place `'_'` pass yields exactly `Refresh` of the old state, the returned row is `Layout` of the new state, and `Valid()` is preserved |
| `Driver.Direction` | main.go:56-62 | key 127 dispatches to direction -1; every other key code dispatches to +1 |
| `Driver.KeyStep` | main.go:56-69 | one loop iteration, an edit followed by a redraw, keeps the invariants and a non-empty buffer |
| `Driver.Replay` | main.go:50-70 | after any finite key sequence, the invariants hold and the target is unchanged; the counter rises by at most one per key; the map only gains true entries |
| `Driver.DispatchNeverFails` | main.go:56-63 | on a valid session, the error that the loop discards is always nil |
| `Driver.TypeKey` | main.go:60-61 | a non-backspace key marks and counts by the rules of `traverse` and advances the cursor; the redraw changes neither |
| `Driver.ReplayAppend` | main.go:50-70 | handling `a` and then `b` equals handling `a + b` |
| `Driver.ReplayFirst` | main.go:50-70 | the first key is handled first, then the rest |
| `Driver.ReplayLast` | main.go:50-70 | the last key is handled last, with one edit and one redraw |
| `Driver.ProcessKeys` | main.go:50-70 | the loop makes one `traverse` call and one redraw per key, in input order; the resulting state is `Replay` of the keys, and `Valid()` holds throughout |
| `Scenarios.MismatchThenSeparator` | gamestate.go:150-164 | for target "abc de" typed as "abd de": index 2 stays unmarked, index 3 (the separator) is marked, the counter ends at 1, and the cursor ends on the last byte |
| `Scenarios.RetreatAtStart` | gamestate.go:139-142 | backspace at position 0 restores byte 0 and keeps the cursor at 0 |

## Left out

- Terminal I/O is not modelled: `tty.Open` and its failure path in `NewGameState`, `Size`, `ReadRune` and its fatal error, all printing, colours and ANSI escapes. The width, height and key sequence are inputs instead.
- The vertical padding loop (gamestate.go:91-93) and the status block (gamestate.go:84-89) only print. The height is parity-fixed and returned, and nothing else is done with it.
- Concurrency is not modelled: the refresh goroutine races with the key loop on the same `gameState`, and a sequential model cannot express that. The duration and interrupt goroutines, `time.Ticker`s, signal handling and `os.Exit` are left out too.
- `secsLeft` and the refresh interval use floating point and time, so they are left out. `elapsed` is never assigned, and the rate shown is the constant 10.0.
- `wordservice.go` (HTTP GET and JSON decoding) is network I/O. The word list is a parameter.
- `render`, `placeCursor` and the commented-out loop in main.go are dead code.
- Editing.Traverse: `pos + dir` uses unbounded integers. Go's 64-bit wrap-around for huge `dir` values is not modelled; the driver only ever passes 1 or -1.
- Editing.Min: `math.Min` goes through float64. It is modelled as an exact integer minimum, which agrees for buffers shorter than 2^53 bytes.
- Rendering.CanRefresh: `refreshUI` requires a terminal at least 3 columns wide. For a narrower one the half-width is 0, the tail slice `modBytes[pos+1:pos]` has inverted bounds, and the Go code panics. `Rendering.Window` states the inversion.
