# Calculator session model

A Dafny model of the session logic of a browser calculator (`script.js`).
The session is an immutable record with five fields:

- the expression being typed (`currentExpression`)
- the last result
- the degree/radian flag
- the "2nd" flag
- the history list

Each user action is a pure function from one session to the next. The model covers:

- button dispatch
- digit and decimal-point entry
- the edit actions
- the two mode toggles
- the history store: capped insertion, clear, replay value and quote escape
- the function-name rewrite applied before evaluation
- the outer contract of `calculate`

The expression evaluator and its result formatting belong to an external
library. They appear only as a function parameter
`Evaluator = (string, bool) -> Outcome`. It receives the rewritten text and
the degree flag, and returns either formatted text or an error.

Modules:

- `Wrappers`: `Option`.
- `Text`: the separator and operator classes, and the string split on
  `+ - * / % ^ ( )`. Its invariant `WellPointed` says no numeric segment holds
  two decimal points.
- `Rewrite`: the word-anchored `ln(`/`log(` substitutions.
- `History`: entries, the cap of fifty, the replay value and quote escaping.
- `Keypad`: `handleNumber`, the buffer edits of `handleAction`, and dispatch.
- `Session`: the state record, `handleAction`, `calculate`, the toggles, and
  event sequences with their invariants.

Behaviour of the code worth noting:

- Insertion drops only the single oldest entry when the list passes fifty.
  A list read back from storage with more than fifty entries therefore stays
  at that length. It is not cut down to fifty.
- A typed `ln(` reaches the evaluator as `log10(`, not as a natural
  logarithm. See Findings.
- When the stored history text fails to parse, `JSON.parse` throws before
  the assignment, so the history keeps its initial empty list. The exception
  is not caught: it leaves the start-up handler (script.js:27-31) before
  `updateDisplay` runs, and the unreadable stored text stays in storage
  until the next save overwrites it.
- The `pow` and `sqr` keys append `^` and `^2` without the operator guard.
  So `3+` followed by `pow` gives `3+^`. The invariant "no doubled
  operators" holds only for the other keys (`Keypad.EditKeepsNoDoubled`,
  `Keypad.PowDoublesOperator`).

## Model

| member | source | states |
|---|---|---|
| Text.Segments | script.js:231 | Splitting on the separator class always yields at least one piece, so `pop()` always has a piece to return. |
| Text.SegmentsCount | script.js:231 | The split has one piece more than the text has separators. |
| Text.SegmentsConcat | script.js:231 | The pieces, concatenated in order, are the text with its separators removed. |
| Text.SegmentsSeparatorFree | script.js:231 | No piece of the split contains a separator. |
| Text.LastSegmentIsTail | script.js:231 | The piece that `pop()` returns is the separator-free suffix after the last separator: either the whole text or a suffix directly preceded by a separator. |
| Text.WellPointedSnoc | script.js:229-234 | Typing one character keeps every numeric segment within one point, provided a point is typed only into a number that has none. |
| Text.WellPointedAppend | script.js:234 | Appending text without a point keeps every numeric segment within one point. |
| Text.WellPointedDropLast | script.js:248-250 | Removing the last character keeps every numeric segment within one point. |
| Keypad.HandleNumber | script.js:228-236 | A `.` is refused, leaving the expression unchanged, exactly when the number being typed already contains a point. Any other button value is appended verbatim. After a `.` press the number being typed contains a point. |
| Keypad.NumberKeepsPoints | script.js:229-234 | If every numeric segment has at most one point, typing a point or any point-free value keeps it so. After a `.` press the trailing number has exactly one point. |
| Keypad.EditBuffer | script.js:243-302 | `delete` removes exactly the last character, and an empty expression stays empty. A guarded operator typed after a guarded operator replaces it: same length, same prefix, new last character. Every other action appends its text. A function name (`sin cos tan log ln sqrt asin acos atan abs`) appends the name and `(`. A special token appends its fixed text: `factorial` gives `!`, `inv` gives `1/`, `sqr` gives `^2`, `pow10` gives `10^`, `exp` gives `e^`, `pow` gives `^`, `pi` gives `pi`, `e` gives `e`. Any other action appends itself. |
| Keypad.EditKeepsNoDoubled | script.js:290-302 | Starting from an expression with no two adjacent operators, every keypad action except `sqr` and `pow` keeps it that way. |
| Keypad.PowDoublesOperator | script.js:281-283 | After `3+`, the `pow` key yields `3+^`, which has two adjacent operators. |
| Keypad.EditKeepsPoints | script.js:248-302 | An edit whose action text has no point never puts a second point into a numeric segment. |
| Keypad.DeleteUndoesAppend | script.js:248-250 | `delete` undoes any action that appended a single character. |
| Keypad.Dispatch | script.js:211-220 | A button with a value, even an empty one, always goes to `handleNumber`. Without a value, a non-empty action always goes to `handleAction`. The alternate is used only when 2nd mode is on and the button has a non-empty alternate, and then it is used. A button with neither a value nor a non-empty action is ignored. |
| Keypad.SecondOnlySwapsAlternates | script.js:214-220 | 2nd mode changes the routing only of buttons that have an action and an alternate and no value. For those it picks the alternate instead of the action. |
| Rewrite.ReplaceAll | script.js:367 | One `replace(/\bpat/g, rep)` call. A pattern at the very start of the text is replaced. |
| Rewrite.ReplaceAllWithoutOccurrence | script.js:367-368 | Text in which the pattern occurs at no word boundary passes a replace unchanged. |
| Rewrite.NormalizeNames | script.js:367-368 | The rewrite as written: a text that starts with `ln(` reaches the evaluator starting with `log10(`. |
| Rewrite.NormalizeNamesIntended | script.js:365-368 | The two replaces in the corrected order. Text with neither `ln(` nor `log(` at a word boundary passes unchanged. |
| Rewrite.NormalizeNamesSplit | script.js:367-368 | For text `p` that is empty or ends in a non-word character, the rewrite of `p + q` is the rewrite of `p` followed by the rewrite of `q`: no match straddles a word boundary. |
| Rewrite.NormalizeNamesIntendedSplit | script.js:365-368 | The same independence holds for the corrected order. |
| Rewrite.NoMatchMeansNoOccurrence | script.js:367-368 | The left-to-right scan finds nothing to replace exactly when the pattern occurs at no word boundary, where a boundary means the preceding character is not in `[A-Za-z0-9_]`. |
| Rewrite.NormalizedHasNoLegacyNames | script.js:367-368 | After both substitutions, the text given to the evaluator contains neither `ln(` nor `log(` at a word boundary. |
| Rewrite.NormalizeNamesIdempotent | script.js:367-368 | Applying the two substitutions again to their own output changes nothing. |
| Rewrite.LogBecomesLog10 | script.js:368 | A `log(` at a word boundary, at the start or anywhere after a non-word character, becomes `log10(`. The text before and after it is rewritten independently. |
| Rewrite.LnBecomesLog10 | script.js:367-368 | A `ln(` at a word boundary, anywhere in the text, also becomes `log10(`, because the second substitution rewrites the output of the first. |
| Rewrite.LnAndLogCoincide | script.js:365-368 | Wherever they stand at a word boundary, `ln(` and `log(` between the same surrounding text reach the evaluator as identical text. |
| Rewrite.GluedNamesUntouched | script.js:367-368 | `ln(` or `log(` directly preceded by any run of letters, digits or `_` (as in `25ln(`, `piln(`, `x_log(`) is left unchanged, and the text before the run and after the name is rewritten independently. |
| Rewrite.IntendedLnIsNatural | script.js:365-367 | With the substitutions in the corrected order, a word-boundary `ln(` anywhere in the text becomes the natural `log(`. |
| Rewrite.IntendedLogIsDecimal | script.js:365-368 | With the substitutions in the corrected order, a word-boundary `log(` anywhere in the text becomes `log10(`, and the `ln(` step leaves it alone. |
| Rewrite.IntendedKeepsLogsApart | script.js:365-368 | With the substitutions in the corrected order, `ln(` and `log(` at a word boundary between the same surrounding text reach the evaluator as different text. |
| History.MakeEntry | script.js:83-87 | The new entry keeps the given expression and result. Its raw value is the one supplied, or the result when none is supplied, so it is never missing. |
| History.Push | script.js:83-88 | The new entry is at index 0 and earlier entries move one place right. If the list then exceeds fifty, only the last entry is dropped. A list within fifty stays within fifty. |
| History.Add | script.js:82-91 | `addToHistory` puts the built entry first and keeps earlier entries in order behind it. Below fifty the list grows by one; at fifty or more its length is unchanged, so exactly one oldest entry is dropped. A list within fifty never passes fifty. |
| History.PushKeepsNewest | script.js:83-88 | On a list within fifty entries, one insertion is "put in front, keep the first fifty". |
| History.PushAllKeepsNewest | script.js:82-88 | After any number of insertions into a list within capacity, the list is the newest entries, newest first, followed by earlier ones, cut at fifty. The oldest entries are evicted first. |
| History.ReplayValue | script.js:107 | A history entry replays its raw value when it has one, and its result otherwise. |
| History.Escape | script.js:109 | Escaping adds exactly one character per single quote. Every quote in the output is preceded by a backslash. |
| History.EscapeRoundTrip | script.js:108-111 | Reading `\'` back as `'` recovers the escaped value exactly. |
| Session.Initial | script.js:1-6 | The session starts with empty expression, result and history, in degree mode, with 2nd mode off. |
| Session.AnnotationRoundTrip | script.js:393-397 | Appending `" ="` and then slicing off two characters gives back the expression, so the history records the expression as typed. |
| Session.Calculate | script.js:307-412 | An empty expression is a no-op, and so is an evaluator error. On success the formatted text becomes both the expression and the result. A new first history entry records the pre-calculation expression, with the result as its raw value. Earlier entries follow in order: all of them below fifty, all but the oldest at fifty or more. Flags are unchanged, and the history stays within fifty. |
| Session.HandleAction | script.js:238-305 | `tools` changes nothing. `clear` empties the expression and the result and keeps flags and history. `calculate` evaluates. Every other action changes only the expression, as `Keypad.EditBuffer` describes. |
| Session.Press | script.js:206-226 | A button with a value changes only the expression, through `handleNumber`. A button with no value and a non-empty action runs `handleAction` on its alternate when 2nd mode is on and it has one, and on its action otherwise. A button with no value and no action changes nothing. No button press changes a flag. |
| Session.ToggleDegree | script.js:168-171 | The degree flag is flipped and nothing else changes. |
| Session.ToggleSecond | script.js:174-178 | The 2nd flag is flipped and nothing else changes. |
| Session.TogglesAreInvolutions | script.js:168-178 | Pressing DEG/RAD twice, or 2nd twice, restores the session exactly. |
| Session.ClearHistory | script.js:76-80 | The history becomes empty and nothing else changes. |
| Session.Replay | script.js:118-122 | Replaying an entry appends its replay value to the expression, and nothing else changes. |
| Session.ToolSolved | script.js:141 | A solve records an entry whose replay value is the single number the solver supplied, and changes nothing but the history. |
| Session.RunKeepsValid | script.js:82-91 | Over any sequence of key presses, toggles, solves, replays and history clears, starting within fifty entries, the history never exceeds fifty. |
| Session.TypingKeepsPoints | script.js:228-236 | Over any sequence of point-free typing presses, `.` presses, toggles, solves and history clears, no numeric segment ever gains a second decimal point. Replays and `calculate` are excluded. |

## Left out

- DOM rendering is not modelled: the display, the history list's HTML, key
  labels in 2nd mode, `showResult`, panel opening and closing, the
  click-outside handler and vibration. They have no state beyond the screen.
- The text shown above the result (`previousDisplay`) is not modelled. It is
  only screen state, and `calculate` reads it back only to recover the
  expression (`Session.AnnotationRoundTrip`).
- Theme and history persistence (`localStorage`, `JSON.stringify`/`parse`,
  `loadTheme`, `saveHistory`, `loadHistory`) are left out because they are
  foreign I/O. A stored list may lack `rawValue`, so `Entry.rawValue` is an
  `Option`. A stored `null` raw value, which would replay as the text `null`,
  is not modelled.
- The evaluator (`math.evaluate`, `math.format` with precision 14, and the
  degree-unit trig scope) is an external library working in floating point.
  It is the `Evaluator` parameter, which receives the degree flag.
- The unused `trigScope` block with its empty `try` (script.js:341-355) is
  dead code and is not modelled.
- The tool solvers' arithmetic (`solveCircle`, `solvePythagoras`,
  `solveAlgebra`: floating point, `parseFloat`, `toFixed`) is not modelled.
  Only their history record is (`Session.ToolSolved`), with the formatted
  strings given as parameters.
- The timers are not modelled: the 1.5 s error-display revert and the result
  scale animation. They only change what is shown.
- Session.Calculate: models a successful evaluation as always completing.
  `addToHistory` runs inside `calculate`'s `try` (script.js:397, 89, 94). If
  `localStorage.setItem` throws (quota exceeded, storage disabled), the
  expression, the result and the history have already changed (script.js:83,
  394-395), and the `catch` (script.js:407-411) then shows "Error" on top of
  the changed state. The model does not include this failure path.
- Keypad.EditBuffer: models text as a sequence of Unicode scalar values,
  while the browser's strings are sequences of UTF-16 code units. `delete`
  (`slice(0, -1)`, script.js:249), the last-character test (`slice(-1)`,
  script.js:293) and the annotation cut (`slice(0, -2)`, script.js:397) act on
  code units, so on text ending in a character outside the Basic Multilingual
  Plane they differ from the model: `"a😀"` loses only half of the emoji in
  the browser and the whole emoji in the model. Keypad input never produces
  such characters.
- Session.Replay: the escaped value is placed inside a double-quoted HTML
  attribute (script.js:111). The browser decodes character references there
  (`&amp;` becomes `&`), and a `"` in the value ends the attribute. The model
  treats the value as reaching `loadFromHistory` unchanged apart from the
  quote escape. Values produced by the calculator contain neither `&` nor `"`.
- Session.Replay: models the value `loadFromHistory` receives as the entry's
  replay value itself. This is the escaped text read back as a single-quoted
  literal, which `History.EscapeRoundTrip` shows to be lossless for `\'`.
  Other backslash escapes in a value are not modelled: the source leaves
  backslashes unescaped, so a value containing one would not reach the
  expression unchanged.

## Findings

| source | as written | input that shows it | evidently intended | confidence | as-written member | corrected member |
|---|---|---|---|---|---|---|
| script.js:365-368 | `ln(` is rewritten to `log(`, and then every word-boundary `log(` becomes `log10(`, including the ones just produced | the expression `ln(2)` is evaluated as `log10(2)`, and so is `2*ln(3)` as `2*log10(3)`. `LnAndLogCoincide` shows `ln(` and `log(` at any word boundary reach the evaluator identically | `ln(` evaluated as the natural `log(`, and `log(` as `log10(`, as the comment above the rewrite says | high, not executed | Rewrite.LnAndLogCoincide | Rewrite.IntendedKeepsLogsApart |

`Rewrite.NormalizeNames` is the rewrite as written. `Rewrite.NormalizeNamesIntended`
applies the two substitutions in the other order. `Session.Calculate` keeps the
as-written rewrite, because the session model describes what the calculator
actually sends to its evaluator.
