# LazyKey keystroke rewriters, modelled in Dafny

LazyKey is a VS Code extension. It rewrites the character just typed when
the text around the cursor suggests that the user meant something else.
Three completion handlers do this, each `provideCompletionItems`:

- `src/key_zero.js` turns a typed `0` into `)`. On a US keyboard `0` shares
  a key with `)`. A layered heuristic first decides whether the `0` is a
  numeric literal. If it is not, the parentheses on the line are counted.
  The `0` becomes `)` when one is missing. When the line is already
  balanced, the `0` is removed in the same batch if another cursor needs
  `)`. When every cursor is balanced, the handler deletes the `0` and steps
  over the `)` after a delayed re-check of the document, but only if every
  cursor has a `)` right of it; otherwise the `0` is left in place.
- `src/key0.js` is the earlier, simpler version. It has the same count and
  the same multi-cursor aggregation, but its only literal test is a digit
  next to the `0`. Every edit it collects writes `)`, and its fast path runs
  at once.
- `src/key_dot.js`, for C, C++ and PHP, turns a typed `.` after a pointer
  into `->`.
  - Two dots become `->`.
  - A `.` typed right after `->` turns the arrow back into `.` and
    suppresses the handler's next run through a configuration flag.
  - Whether a word is a pointer is judged from the whole document: a
    `*word` declaration, a `word->` use or `word = new`. The lines above
    the cursor then decide: the nearest line that mentions `word.` or
    `word->` wins.

The model takes one snapshot of the editor: the document's lines, its
end-of-line sequence, the cursors and the settings. It returns what the
handler makes the editor do. Every handler is an imperative `Provide`
method. It walks the cursors from last to first, as the source does, and is
proved equal to a pure `Spec` function. For one cursor it calls
`DecideCursor`, which is proved equal to a pure `Decide`. The lemmas state
the source's rules about `Decide` and `Spec`.

Modules:

- `Text` holds the character classes of JavaScript's `\d`, `\w` and `\s`,
  and `startsWith`/`endsWith`.
- `Pattern` holds the regular expressions the handlers build around a word,
  as an explicit matcher. It also gives the count of global matches
  (`match(/\bword/g).length`).
- `Host` holds positions, cursors, documents, edits and the outcome type.
- `Balance` counts parentheses.
- `Aggregate` holds the multi-cursor bookkeeping the two `0` handlers share.
- `KeyZero`, `Key0` and `KeyDot` each model one handler.

Two behaviours of the code worth knowing:

- The `0` handler's fast path needs the text right of every cursor to start
  with `)` (src/key_zero.js:80-81).
- The `.` handler triggers suggestions after any applied batch, reversals
  included, when the first cursor's right text is empty or starts with a
  non-word character (src/key_dot.js:110-123).

## Model

| member | source | states |
|---|---|---|
| Host.Split | src/key_zero.js:33-35 | the text left of the typed character, that character and the text right of the cursor rebuild the line, and the typed character is the one at column c-1 |
| Pattern.WordStartAt | src/key_zero.js:58 | `\bword` matches at i exactly when the word is there and no word character precedes it |
| Pattern.NoOverlap | src/key_zero.js:58 | two matches of `\bword` for an identifier word start at least the word's length apart |
| Pattern.CountSeesOne | src/key_zero.js:58 | a match at or after the search start makes the global match count at least 1 |
| Pattern.CountSeesTwo | src/key_zero.js:58 | two distinct matches of an identifier word make the global match count at least 2 |
| Pattern.CountNone | src/key_zero.js:58 | with no match from the start on, the count is 0 (the `null` that `match` returns) |
| Pattern.CountPositive | src/key_zero.js:58 | a global match count of at least 1 comes from a match of `\bword` at or after the search start |
| Pattern.CountTwo | src/key_zero.js:58 | a global match count of at least 2 comes from two distinct matches at or after the search start |
| Pattern.OccurrencesCases | src/key_zero.js:58 | for an identifier word, the count `match(/\bword/g).length` is 0 exactly when the word starts nowhere, 1 exactly when it starts at one place only, and 2 or more exactly when it starts at two places |
| Balance.CountParens | src/key_zero.js:62-74 | the counting loop returns the numbers of '(' and of ')' in the text, ignoring every other character |
| Balance.CountOfConcat | src/key_zero.js:62-74 | counting the left and the right text separately gives the count of their concatenation |
| Balance.BalancedLine | src/key_zero.js:76-77 | with the typed '0' between them, the two sides count as balanced exactly when the whole line has no more '(' than ')' |
| Aggregate.FoldHalts | src/key_zero.js:26-59 | the cursor loop ends early exactly when some cursor declines |
| Aggregate.HaltedStays | src/key_zero.js:26-39 | once a cursor has returned, the cursors not yet visited change nothing |
| Aggregate.FoldRuns | src/key_zero.js:76-90 | with no decline, every cursor's edit is collected, last cursor first; `isAllSkip` holds exactly when every cursor skips; `canSkipIfAllSkip` holds exactly when every skipping cursor has ')' right of it |
| Aggregate.SettleCases | src/key_zero.js:93-110 | any decline: nothing happens; otherwise one non-skipping cursor applies the whole batch, skips included; with every cursor skipping, the fast path runs exactly when every cursor has ')' right of it |
| KeyZero.DecideCursor | src/key_zero.js:28-90 | one pass of the loop body, with the layers and the two counting loops, yields the cursor's decision as `Decide` defines it |
| KeyZero.Provide | src/key_zero.js:8-111 | the handler with its gates, its reverse loop, its early returns and its final choice computes `Spec` |
| KeyZero.RecheckOnce | src/key_zero.js:99-109 | the delayed re-check lets the deletion through exactly when the re-read word still ends in '0' and its global match count is 1 (see RecheckSoleOccurrence for what that count means) |
| KeyZero.RecheckSoleOccurrence | src/key_zero.js:102-104 | for an identifier word, the re-check passes exactly when the re-read word ends in '0' and starts at one place only in the document |
| KeyZero.WordTestDecides | src/key_zero.js:42-59 | after a word character the digit layer lets through, the cursor goes on exactly when the identifier starts at one place only, neither nowhere (the `null` match) nor at two places or more |
| KeyZero.LeftDigitDeclines | src/key_zero.js:42-45 | a digit left of the typed '0' marks it as a literal unless it is a lone '0' after a non-digit with ')' right of the cursor |
| KeyZero.SoleZeroGoesToWordTest | src/key_zero.js:42-59 | a lone '0' after a non-digit with ')' right of the cursor passes every layer up to the repeated-word test, which alone decides |
| KeyZero.DigitRightDeclines | src/key_zero.js:42-45 | a digit right of the cursor always marks the '0' as a literal |
| KeyZero.IncDecWins | src/key_zero.js:49-53 | after "++" or "--" the '0' goes on to the count, although '+' and '-' are also operators |
| KeyZero.OperatorDeclines | src/key_zero.js:52-53 | after a space or an operator other than "++"/"--" the '0' is a literal |
| KeyZero.KnownCallDeclines | src/key_zero.js:55-56 | after `at(`, `insert(`, `of(`, `remove(`, `add(` or `set…(` with ')' right of the cursor, the '0' is an argument |
| KeyZero.RepeatedWordDeclines | src/key_zero.js:58-59 | after a word character, a word that occurs twice or more in the document stops the handler |
| KeyZero.RepeatedIdentifierDeclines | src/key_zero.js:58-59 | two word-start occurrences of an identifier in the document stop the handler |
| KeyZero.EditReplacesTypedZero | src/key_zero.js:76-90 | a cursor that goes through replaces exactly the typed '0' (columns c-1 to c): by nothing when balanced, by ')' otherwise; it skips exactly when balanced |
| KeyZero.DeclineDiscardsAll | src/key_zero.js:26-59 | one declining cursor means no edit at all |
| KeyZero.CloserAppliesBatch | src/key_zero.js:78-97 | one cursor needing ')' applies every cursor's edit, removals included, last cursor first |
| KeyZero.AllSkipPath | src/key_zero.js:78-110 | with every cursor balanced, the delayed re-check at the first cursor runs exactly when every cursor has ')' right of it; otherwise nothing happens |
| Key0.DecideCursor | src/key0.js:24-70 | one pass of the loop body, with its two index loops, yields the cursor's decision as `Decide` defines it |
| Key0.Provide | src/key0.js:6-82 | the handler with its gates, its reverse loop, its early returns and its final choice computes `Spec` |
| Key0.DigitAdjacentDeclines | src/key0.js:37-39 | any digit next to the typed '0' ends the handler; there is no exception for ')' |
| Key0.EditAlwaysCloser | src/key0.js:58-70 | a cursor that goes through replaces the typed '0' by ')' whether or not it skips, and skips exactly when balanced |
| Key0.DeclineDiscardsAll | src/key0.js:22-39 | one declining cursor means no edit at all |
| Key0.CloserAppliesBatch | src/key0.js:60-77 | one unbalanced cursor applies every cursor's ')' edit, last cursor first |
| Key0.AllSkipPath | src/key0.js:60-81 | with every cursor balanced, delete-and-advance runs at once exactly when every cursor has ')' right of it; otherwise nothing happens |
| KeyDot.NearestMentionDecides | src/key_dot.js:80-95 | the scan's verdict is '.' exactly when some line above mentions `word.` and no line between that one and the cursor's line mentions `word.` or `word->` |
| KeyDot.NearestUsePoint | src/key_dot.js:80-95 | the upward loop with its two breaks computes the scan's verdict |
| KeyDot.DecideCursor | src/key_dot.js:32-103 | one pass of the loop body yields the cursor's action as `Decide` defines it |
| KeyDot.VisitCursors | src/key_dot.js:26-107 | the reverse cursor loop reaches the state the fold of the cursors' actions defines, and keeps the first cursor's right text |
| KeyDot.Provide | src/key_dot.js:9-124 | the handler with its gates, the loop and the final choice computes `Spec` |
| KeyDot.FoldHalts | src/key_dot.js:29-77 | the loop ends early exactly when some cursor aborts |
| KeyDot.HaltedStays | src/key_dot.js:29-77 | once a cursor has returned, the cursors not yet visited change nothing, the flag included |
| KeyDot.FlagNeedsReversal | src/key_dot.js:47-51 | the flag is only ever armed by a cursor that reverses an arrow |
| KeyDot.FoldRuns | src/key_dot.js:97-107 | with no abort, the batch holds exactly the emitting cursors' edits, one entry per emitting cursor; it is empty exactly when every cursor is passed over; the flag is armed exactly when some cursor reverses |
| KeyDot.SuppressedOnce | src/key_dot.js:15-18 | an armed flag makes the run a no-op and clears the flag |
| KeyDot.RevertArrow | src/key_dot.js:47-51 | a '.' typed right after "->" is an arrow-to-dot edit over columns c-3 to c, and the line becomes the text before the arrow, '.', and the rest |
| KeyDot.DotArrowDot | src/key_dot.js:47-51 | a '.' after a pointer word becomes "->", and a '.' typed right after that arrow restores the line with the single '.' first typed |
| KeyDot.DecimalPointDeclines | src/key_dot.js:52-55 | a '.' after a digit ends the handler |
| KeyDot.TwoDots | src/key_dot.js:59-70 | after a '.', the handler ends exactly when the character before that '.' is '.', a tab or a space; otherwise both dots become "->", with no pointer test |
| KeyDot.SingleDot | src/key_dot.js:72-99 | a single '.' ends the handler exactly when the word is not `this` and has no pointer evidence; it becomes "->" exactly when the gate passes and the scan says pointer; `this` skips the gate but not the scan |
| KeyDot.AbortDiscardsEdits | src/key_dot.js:29-77 | one aborting cursor means no edit and no suggestion |
| KeyDot.HaltFlag | src/key_dot.js:29-77 | with k the last aborting cursor, the loop halts with the flag armed exactly when a cursor after k, visited before it, reversed an arrow |
| KeyDot.AbortKeepsFlag | src/key_dot.js:47-51 | with the handler active and k the last aborting cursor, nothing is applied, yet the flag is armed exactly when some cursor after k reversed an arrow, so the next run is suppressed |
| KeyDot.ReversalArmsSuppression | src/key_dot.js:47-51 | an active run arms the flag only after a reversal; with no abort, a reversal always arms it and applies the batch |
| KeyDot.BatchEmpty | src/key_dot.js:97-111 | with no abort, nothing is applied exactly when every cursor is passed over |
| KeyDot.EmitsApplied | src/key_dot.js:103-123 | with no abort, every emitted edit is in the applied batch, and the suggest trigger follows the first cursor's right text |
| KeyDot.AppliedAreEmits | src/key_dot.js:103-116 | every edit in an applied batch is the edit some cursor emitted |

## Left out

- Configuration reads and writes are left out. The settings, including the one-shot `LazyKey.DotToPointDisabledOnce` flag, are plain inputs. The flag is also an output of the dot handler. Writes are taken to land in program order.
- The host's text services are left out. `getWordRangeAtPosition` is opaque, so the word left of each cursor is an input field of the cursor.
- In the double-dot path the word is re-read one column further left (src/key_dot.js:67). Its only uses are the evidence gate and the scan, and both are ignored when `doublePoint` is set. So the model neither re-reads the word nor runs the scan on that path.
- Edit application, `deleteLeft`, `cursorRight` and `triggerSuggest` are left out. They are the returned outcome and the dot handler's `suggest` bit.
- Timers are left out. The 50 ms re-check of src/key_zero.js:99-109 is the outcome `RecheckThenDeleteAndAdvance` plus the pure predicate `KeyZero.RecheckPasses`, which states its test on the re-read word and document. The 100 ms suggestion trigger of src/key_dot.js:119-123 is only the decision to schedule it.
- `editor.selection.text != undefined` (src/key_zero.js:18, src/key0.js:14, src/key_dot.js:24) is left out. A selection has no `text` field, so the test never returns.
- The regular expressions are built from the unescaped word. The model reads the word literally and does not model a word holding regular-expression metacharacters.
- A word range the host cannot find would make `getText(undefined)` return the whole document. The model does not model that case. One consequence: for two dots typed after a non-word character (`f()..`, `a[0]..`) no word stands left of the first dot, the regular expressions of src/key_dot.js:73-75 are built from the whole document and throw on most real C text (`i++` gives "Nothing to repeat"), so the source makes no edit, while the model emits `->`.
- Columns are counted in Dafny characters (code points), while VS Code positions and `substring` count UTF-16 code units. No test changes, but the columns of an edit after a character outside the Basic Multilingual Plane differ from the source's.
- Registration, `resolveCompletionItem` and the registration language lists are left out. The language lists checked inside the handlers are modelled.
- The model does not assume that the host calls the handler only after the trigger character. A cursor whose typed character is not the trigger ends the handler, as the code says.
