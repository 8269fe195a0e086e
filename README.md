# React calculator: input handling, normalisation and bracket check

A Dafny model of the calculator component of a small React calculator
(`src/components/Calculator.js`). The component keeps two strings, `input`
(the expression being typed) and `answer` (the last result or one of two
error messages, `"Invalid Input!!"` and `"Brackets are not balanced!"`),
and five button handlers change them. On the equals key the expression is
normalised (`x` to `*`, `÷` to `/`, `√digits` to `Math.sqrt(digits)`),
checked for balanced brackets and handed to JavaScript's evaluator.

Files:

- `brackets.dfy` (module `Brackets`): the stack scan of
  `checkBracketBalanced`, proved equal to the prefix-count definition
  `Balanced` (no prefix has more `)` than `(`, equal totals), with lemmas on
  what that definition ignores and is closed under.
- `normaliser.dfy` (module `Normaliser`): the normalising step of
  `calculateAns`. The first-occurrence replacement loop is proved equal to
  a one-pass rewrite of every `√digits` match, and normalising is proved to
  leave the bracket balance unchanged.
- `calculator.dfy` (module `CalculatorComponent`): class `Calculator` with
  the fields `input` and `answer` and one method per handler, each stating
  the whole new state. Two scenario methods run the handlers in sequence.

The evaluator (`Function(...)` on line 55) and the rounding step after it
(line 94) are a parameter `eval: string -> Evaluation`, where an
`Evaluation` is `Returned(shown)`, the text the answer shows, or
`Raised(message)`, a throw. The `catch` at lines 88-93 is modelled as the
source has it: a thrown message equal to the bracket message gives the
bracket message, and any other throw gives `"Invalid Input!!"`.

Three behaviours of the code are easy to miss, and the model keeps them:

- When the input holds any `√digits` match, line 71 starts the square-root
  rewrite again from the raw `input`. The `x` and `÷` replacements of lines
  64-65 are then lost (`NormalisedWithRootsKeepsGlyphs`,
  `NormalisedMixedExample`: `"√4x2"` becomes `"Math.sqrt(4)x2"`).
- The invalid-input message blocks keys and the sign key, but not
  backspace. Backspace has no guard, so it turns the message itself into
  the input (`LockedAfterInvalidInput`). Clear is not the only way out.
- The 14-character limit is checked on the old `input` plus the key's
  text. When an answer is showing, the stored input is `answer + val`, and
  that text can be longer than 14 characters.

## Model

| member | source | states |
|---|---|---|
| `Brackets.CheckBracketBalanced` | src/components/Calculator.js:36-51 | the push/pop scan returns true exactly when no prefix has more `)` than `(` and the totals are equal |
| `Brackets.InsertBalancedGroup` | src/components/Calculator.js:36-51 | inserting a balanced text anywhere does not change whether a text is balanced |
| `Brackets.OtherCharacterIgnored` | src/components/Calculator.js:38-49 | a character other than a bracket, wherever it stands, does not affect the result |
| `Brackets.NoBracketsBalanced` | src/components/Calculator.js:36-51 | a text without brackets always passes the check |
| `Brackets.BalancedConcat` | src/components/Calculator.js:36-51 | two balanced texts joined are balanced |
| `Brackets.BalancedWrap` | src/components/Calculator.js:36-51 | a balanced text inside one more pair of brackets is balanced |
| `Brackets.LeadingCloseUnbalanced` | src/components/Calculator.js:45-46 | a text starting with `)` fails whatever follows, so `")("` fails although its totals match |
| `Normaliser.ReplaceChar` | src/components/Calculator.js:64-65 | `replaceAll` with a one-character pattern: same length, each occurrence replaced, every other character kept |
| `Normaliser.RootMatches` | src/components/Calculator.js:68 | the `/√[0-9]+/gi` match list: each element is a glyph followed by one or more digits |
| `Normaliser.RootMatchesPositions` | src/components/Calculator.js:68 | the matches stand in the input at `RootStarts`, in increasing order and without overlap; each is greedy (the next character is not a digit); the starts are exactly the positions where a glyph is followed by a digit |
| `Normaliser.RootMatchesEmpty` | src/components/Calculator.js:68-70 | the match list is empty exactly when no glyph in the input is followed by a digit |
| `Normaliser.IndexFrom` | src/components/Calculator.js:73-76 | the position `String.replace` acts on: the first occurrence of the pattern, or none when it does not occur; `ReplaceFirst` replaces the text at that position, or returns the input unchanged when there is none |
| `Normaliser.SqrtLoopIsGlobalRewrite` | src/components/Calculator.js:70-78 | replacing only the first occurrence of each match, in order, rewrites every match exactly once (`FoldReplace` is the loop of lines 72-77 and `SqrtCall` the template of line 75) |
| `Normaliser.RootRewriteLeavesNoRoot` | src/components/Calculator.js:72-77 | after the rewrite no glyph is followed by a digit |
| `Normaliser.Normalise` | src/components/Calculator.js:62-79 | the source's sequence of replacements yields `Normalised(input)`: the glyph replacements if there is no root match, the root rewrite of the raw input if there is one |
| `Normaliser.NormalisedPreservesBalance` | src/components/Calculator.js:62-86 | normalising never changes whether the brackets balance |
| `Normaliser.NormalisedWithoutRoots` | src/components/Calculator.js:64-65 | without a root each `x` becomes `*` and each `÷` becomes `/`, nothing else changes, no glyph is left, and a second pass is the identity |
| `Normaliser.NormalisedIdempotent` | src/components/Calculator.js:62-79 | whenever the first pass leaves no `x` and no `÷`, with or without roots in the input, a second pass changes nothing |
| `Normaliser.NormalisedWithRootsKeepsGlyphs` | src/components/Calculator.js:70-78 | with a root present the number of `x` and of `÷` is unchanged: line 71 discards lines 64-65 |
| `Normaliser.NormalisedGlyphExample` | src/components/Calculator.js:62-66 | `"2x3÷4"` becomes `"2*3/4"` |
| `Normaliser.NormalisedRootExample` | src/components/Calculator.js:68-78 | `"√144"` becomes `"Math.sqrt(144)"` |
| `Normaliser.NormalisedMixedExample` | src/components/Calculator.js:62-79 | `"√4x2"` becomes `"Math.sqrt(4)x2"`: the `x` typed beside a root is not replaced |
| `CalculatorComponent.Remap` | src/components/Calculator.js:15-18 | `x2`, `x3`, `3√`, `log` become `**2`, `**3`, `**(1/3)`, `Math.log10(`; every other key is kept |
| `CalculatorComponent.RemapOnlySpecialKeys` | src/components/Calculator.js:15-18 | a key is rewritten exactly when it is one of the four special keys |
| `CalculatorComponent.ToggleSign` | src/components/Calculator.js:110-119 | the result starts with a sign, which is `-` exactly when the source did not start with `-`; a signed source keeps its length and its tail |
| `CalculatorComponent.ToggleSignTwice` | src/components/Calculator.js:106-133 | two flips give back a signed text; an unsigned one comes back with a leading `+` |
| `CalculatorComponent.DropLast` | src/components/Calculator.js:100-102 | `slice(0, -1)`: the text minus its last character, the empty text unchanged |
| `CalculatorComponent.Calculator.constructor` | src/components/Calculator.js:7-8 | both fields start empty |
| `CalculatorComponent.Calculator.InputHandler` | src/components/Calculator.js:11-27 | no change under the invalid-input message or when old input plus the remapped key exceeds 14 characters; otherwise the answer is cleared and the input is the answer (if there was one) or the old input, followed by the remapped key |
| `CalculatorComponent.Calculator.ClearInput` | src/components/Calculator.js:30-33 | both fields empty, from any state |
| `CalculatorComponent.Calculator.Backspace` | src/components/Calculator.js:98-103 | a non-empty answer minus its last character becomes the input and the answer is cleared; otherwise the input loses its last character, and an empty input stays empty |
| `CalculatorComponent.Calculator.ChangePlusMinus` | src/components/Calculator.js:106-133 | no change under the invalid-input message; otherwise the input is the sign-flipped answer (if there was one) or input, and the answer is empty |
| `CalculatorComponent.Calculator.CalculateAns` | src/components/Calculator.js:59-95 | empty input: nothing changes; unbalanced input: the bracket message, whatever the evaluator would do; otherwise the evaluator's text, or on a throw the invalid-input message; the input is kept |
| `CalculatorComponent.ContinueFromAnswer` | src/components/Calculator.js:20-26 | after `2`, `x`, `3`, equals giving 6, then `+`, `4`, the input is `"6+4"` and the answer is empty |
| `CalculatorComponent.LockedAfterInvalidInput` | src/components/Calculator.js:98-107 | after an evaluator failure a key and the sign key change nothing, and backspace makes `"Invalid Input!"` the input |

## Left out

- The evaluator of line 55 runs dynamically built JavaScript. It is the
  parameter `eval` and is not modelled.
- Rounding to three decimals, `isNaN`, and the handling of `NaN` and
  `Infinity` (line 94) are floating-point behaviour. They are folded into
  the text `eval` returns.
- `CalculatorComponent.Calculator.CalculateAns`: does not count evaluator
  calls. It states only that on unbalanced brackets the answer does not
  depend on `eval`, which is what "the evaluator is not consulted" means
  for the state.
- An `Evaluation` of `Returned` may carry the empty text. When the
  evaluator gives a number, `NaN` or `Infinity`, the text line 94 stores is
  never empty, so the model promises less than the source there: it does
  not promise a non-empty answer after the equals key on a non-empty input.
- After an evaluation that gives a number, `answer` holds that number. The
  model holds the string the number converts to, which is what the
  `toString()` calls of lines 100 and 109 produce.
- `CalculatorComponent.Calculator.CalculateAns`: assumes the evaluator
  gives a number, `NaN`, `Infinity` or a throw, with the answer depending
  only on the evaluated text. The source does not always do so. Typing
  log, backspace twice, then equals evaluates `"Math.log1"` to `undefined`.
  Line 94 stores that `undefined`. Then `answer.toString()` throws at
  line 100 (backspace) and line 109 (sign key), and neither key changes
  anything, whereas the model's `Backspace` and `ChangePlusMinus` act on
  the answer text. Typing log, backspace once, then equals evaluates
  `"Math.log10"` to a function. `setAnswer` treats a function as an
  updater and applies it to the previous answer. From an empty answer this
  gives `-Infinity`, and a second equals gives `NaN`, so the same input
  yields two different answers. The model has no non-numeric results and
  no updater calls, so it captures neither case.
- React plumbing: `useState`, updater-function batching (modelled as
  assignments in order), `event.target.innerText` (the handler takes the
  key's label), and the JSX that renders `Display` and `Buttons`.
  `Display` also receives `setInput`. `Display.js` and `Buttons.js` are not
  part of this model.
- JavaScript counts string length in UTF-16 code units and the model
  counts characters. The two agree for every key label (all, including `√`
  and `÷`, are single units).
- `replace` interprets `$` patterns in the replacement text. The
  replacement `Math.sqrt(digits)` contains none, so this is not modelled.
