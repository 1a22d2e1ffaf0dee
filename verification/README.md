# Quiz trainer: play engine and answer checking

A model of the command core of `cmds.js`, the command file of a command-line quiz trainer.
The file holds:

- the answer normaliser `limpia`;
- the argument check `validateId`, built on JavaScript's `parseInt`;
- the `show <id>` and `test <id>` commands;
- the `play` mode: `settingUp` collects every quiz id, `aleatorio` draws and removes one id at
  random, and `bucle` asks the drawn quiz. `bucle` continues while the answers are right and
  stops at the first wrong answer or once every quiz has been asked.

The modules follow the program's structure:

| file | module | what it models |
|---|---|---|
| `wrappers.dfy` | `Wrappers` | `Option` and `Result` |
| `text.dfy` | `Text` | ECMAScript white space, `toLowerCase` on one character, `trim` |
| `normalize.dfy` | `Normalize` | `limpia`, the answer comparison, and a reference definition `Canon` |
| `ids.dfy` | `Ids` | `parseInt` without a radix, `String(n)`, and `validateId` |
| `quizzes.dfy` | `Quizzes` | the quiz table as a list of rows, `findById`, and `settingUp` |
| `pick.dfy` | `Pick` | `indexOf`, `splice(start, 1)`, and `aleatorio` |
| `events.dfy` | `Events` | what the commands show: one event per line or prompt |
| `session.dfy` | `Session` | `bucle` and `playCmd` as a trace of events plus an outcome, the reference order `Order`/`Expect`, and what every session reports |
| `play.dfy` | `PlayCommand` | whole `play` sessions |
| `commands.dfy` | `Commands` | `showCmd` and `testCmd` |

How the environment becomes inputs:

- **Randomness.** `Math.floor(Math.random() * text.length)` becomes a sequence of draws, one per
  round. `ValidDraws` says each draw is below the number of ids still pending, which is what the
  random index guarantees. Draws out of range are still given their JavaScript meaning:
  `text[k]` is `undefined`, `indexOf` returns -1, and `splice(-1, 1)` drops the last element.
- **The user.** What the user types becomes a list of answer lines. When the list runs out, the
  session is `Waiting`: the program would still be waiting at `rl.question`.
- **Output.** What the program prints becomes a list of events of one type, `Events.Event`.
  `Ask` is a question put to the user. `Shown` is a quiz displayed by `show`. `Verdict` is the
  judgement `test` prints. `Correct` is "CORRECTO" with the running score and `Incorrect` is
  "INCORRECTO". `NothingMore` is "No hay nada más que preguntar". `GameOver` is the final score.
  `Failed` is an error message. `Prompt` is `rl.prompt()`. A `play` run is a `Session.Run`: its
  events plus how it stopped.
- **The database.** It becomes a list of rows, in the order `findAll` yields them. Ids are unique
  because they are the table's primary key (`UniqueIds`).

## Model

| member | source | states |
|---|---|---|
| Normalize.StripSpaceKeeps | cmds.js:373 | the result contains no white space; an answer without white space is left unchanged, and every other character is kept exactly as often as it occurs |
| Normalize.DeaccentPointwise | cmds.js:375-379 | the five case-insensitive vowel passes keep the length and rewrite each character on its own: position `i` of the result is the plain vowel for an accented vowel of either case at position `i`, and the input character otherwise |
| Normalize.LimpiaIsCanon | cmds.js:372-381 | `limpia` equals the reference definition: each white-space character dropped, every other character lower-cased and then unaccented |
| Normalize.LimpiaCanonical | cmds.js:372-381 | the result of `limpia` contains no white space, no upper-case letter and no accented vowel, and is never longer than the input |
| Normalize.LimpiaIdempotent | cmds.js:372-381 | applying `limpia` twice gives the same result as applying it once |
| Normalize.CorazonExample | cmds.js:372-381 | "Corazón", "corazon" and "  CORAZON " all normalise to "corazon", so each is accepted for the others |
| Normalize.MatchesOwnCanonicalForm | cmds.js:226 | an answer matches its own normal form, in both directions |
| Normalize.LimpiaAppend | cmds.js:372-381 | `limpia` of a concatenation is the concatenation of the two results |
| Normalize.LimpiaIgnoresLeadingSpace | cmds.js:373 | leading white space does not change `limpia` |
| Normalize.LimpiaIgnoresTrailingSpace | cmds.js:373 | trailing white space does not change `limpia` |
| Normalize.LimpiaIgnoresPadding | cmds.js:373 | white space on both sides of an answer does not change `limpia` |
| Normalize.LimpiaIgnoresTrim | cmds.js:110 | trimming before `limpia` changes nothing |
| Normalize.MatchesIgnoresTrim | cmds.js:110 | a trimmed reply is accepted exactly when the reply as typed would be |
| Normalize.Judge | cmds.js:226 | the verdict on a trimmed reply is true exactly when `limpia` of the reply equals `limpia` of the stored answer |
| Normalize.LimpiaIgnoresCase | cmds.js:374 | lower-casing first does not change `limpia` |
| Normalize.LimpiaIgnoresAccents | cmds.js:375-379 | removing accents first does not change `limpia` |
| Normalize.CanonIgnoresAccents | cmds.js:375-379 | the reference definition does not see accents |
| Text.LowerChar | cmds.js:374 | an upper-case letter moves 32 code points up to its lower-case form; any other character is unchanged; the result is never upper-case |
| Text.TrimStart | cmds.js:110 | leading white space is removed and nothing else is: the result is a suffix of the input, and it is empty or starts with a non-space |
| Text.TrimEnd | cmds.js:110 | trailing white space is removed and nothing else is: the result is a prefix of the input, and it is empty or ends with a non-space |
| Ids.DigitRun | cmds.js:59 | `parseInt` reads the longest run of digits at the front of the string |
| Ids.ValidateId | cmds.js:54-67 | an absent argument is rejected as missing; otherwise the argument is accepted exactly when `parseInt` reads a number, and the accepted id is that number; `NotFound` never comes from here |
| Ids.ParseIntNaN | cmds.js:59-61 | `parseInt` gives `NaN` exactly when, after white space and one sign, no decimal digit comes first, or a `0x` prefix is followed by no hexadecimal digit |
| Ids.ParseIntSkipsLeadingSpace | cmds.js:59 | leading white space does not change `parseInt` |
| Ids.ParseIntReadsDigits | cmds.js:59 | `parseInt` reads any run of decimal digits followed by a non-digit as the run's decimal value, leading zeros included; only a lone `0` followed by `x` is read otherwise |
| Ids.ParseIntReadsPrefix | cmds.js:59 | `parseInt` reads an integer followed by non-digit text as that integer and discards the rest, as in `"12abc"` |
| Ids.ValidateRendered | cmds.js:54-67 | converting an id to text and validating it gives the id back |
| Ids.ParseIntSign | cmds.js:59 | a leading `-` negates the number and a leading `+` is ignored |
| Ids.ValueOfRender | cmds.js:59 | the decimal digits `String(n)` writes are read back as `n` |
| Quizzes.Lookup | cmds.js:78 | `findById` returns a stored row carrying the requested id, and returns nothing exactly when no row carries it |
| Quizzes.LookupFindsRow | cmds.js:78 | with unique ids, looking up any stored row's id finds that row |
| Quizzes.SettingUp | cmds.js:251-261 | the collected list has one id per row, in table order |
| Quizzes.SettingUpKeys | cmds.js:251-261 | an id is collected exactly when a row carries it |
| Quizzes.SettingUpDistinct | cmds.js:251-261 | with unique keys, the collected ids are free of repetitions |
| Pick.IndexOf | cmds.js:273 | the result is the first position holding `x`, or -1 exactly when `x` is absent |
| Pick.Splice1 | cmds.js:273 | `splice(start, 1)` with a negative start counts from the end, clamped at 0; at a position inside the array the result is one shorter, keeps the earlier elements, shifts the later ones down by one, and as a multiset is the input minus one copy of the removed element; a start past the end leaves the array unchanged |
| Pick.Aleatorio | cmds.js:270-276 | an id is drawn exactly when the index is in range; the array loses one element unless it was empty |
| Pick.AleatorioInRange | cmds.js:270-276 | in range, the id at the index is drawn, and the first occurrence of that id, at or before the index, is removed |
| Pick.AleatorioDistinct | cmds.js:270-276 | with distinct ids the drawn id is exactly the one at the index; the rest keeps every other id in order, loses the drawn one, and stays without repetitions (as multisets, rest plus drawn id equals the input) |
| Pick.AleatorioOutOfRange | cmds.js:272-273 | past the end nothing is drawn, and the last id is dropped |
| Session.LeadingIsFirstWrong | cmds.js:297 | `Leading` counts the right answers before the first wrong or missing one: every answer before it is right, and the one at that position, if there is one, is wrong |
| Session.OrderPermutes | cmds.js:270-276 | valid draws take every pending id out exactly once: the drawing order is a repetition-free permutation of the pending ids |
| Session.BucleStep | cmds.js:288-294 | with a valid draw, the drawn id passes `validateId`, `findById` finds the quiz, and the round continues with that id spliced out |
| Session.BucleFollowsOrder | cmds.js:288-321 | a session drawn validly from known, distinct ids asks the ids in the drawn order and ends as the reference description `Expect` says |
| Session.RoundFollowsOrder | cmds.js:295-318 | the same, from a quiz already drawn |
| Session.ExpectClosedForm | cmds.js:297-316 | the reference asks the ids up to and including the first wrong answer; it is won when all ids are answered right, lost at a wrong answer, and waiting when input runs out; the score is the number of right answers |
| Session.BucleReports | cmds.js:288-321 | for any draws and answers: each right answer reports the running score, one higher than the last; the final score is reported exactly when the game is over; the prompt is offered exactly once, last, when the game is over and never otherwise; "nothing more to ask" appears only on a win |
| Session.RoundReports | cmds.js:295-318 | the same reporting guarantees, from a quiz already drawn |
| PlayCommand.PlayEmptyStore | cmds.js:329-342 | with no quizzes nothing is asked, no score is reported and no prompt is offered, because the rejected `validateId` is never caught |
| PlayCommand.SetUpOrder | cmds.js:251-261 | the ids `settingUp` collects come out of valid draws as a repetition-free permutation of the table's ids |
| PlayCommand.PlayFollowsOrder | cmds.js:329-342 | a session on a non-empty table asks ids in the drawn order up to and including the first wrong answer, and ends won, lost or waiting starting from 0 points |
| PlayCommand.PlayAsksEachIdOnce | cmds.js:329-342 | no quiz is asked twice; every asked id belongs to the table; there are at most as many questions as quizzes |
| PlayCommand.PlayScore | cmds.js:329-342 | a session on a non-empty table never aborts; its final score is the number of right answers, equals the number of running-score reports, and is at most the number of quizzes |
| PlayCommand.PlayWonIff | cmds.js:329-342 | the game is won exactly when every quiz was asked and every answer was right |
| PlayCommand.WonIffAllRight | cmds.js:297-316 | a session following an order is won exactly when the whole order was asked and every answer was right |
| Commands.Find | cmds.js:217-223 | the lookup succeeds exactly when `parseInt` reads an id that a row carries, and returns that row; a failure is `NotFound` exactly when the argument was a number |
| Commands.ShowCmd | cmds.js:76-91 | the quiz is shown exactly when the lookup succeeds, and it is the quiz the argument names; then the prompt is offered once |
| Commands.TestCmd | cmds.js:217-241 | the question is asked exactly when the lookup succeeds, and it is the found quiz's question followed by a full-width question mark, for any argument that finds a row; the verdict is whether the reply and the stored answer agree under `limpia`; otherwise the error is shown; the prompt is offered exactly once, last |
| Commands.ShowStoredQuiz | cmds.js:76-91 | `show` with a stored quiz's id displays that quiz |
| Commands.TestStoredQuiz | cmds.js:217-241 | `test` with a stored quiz's id asks its question with a full-width question mark, and accepts the reply exactly when it agrees with the stored answer under `limpia` |
| Commands.TestAcceptsPaddedAnswer | cmds.js:224-232 | the stored answer with white space around it is accepted |
| Commands.TestAcceptsLowerCaseAnswer | cmds.js:224-232 | the stored answer in lower case is accepted |
| Commands.TestAcceptsUnaccentedAnswer | cmds.js:224-232 | the stored answer with its accents removed is accepted |
| Commands.CommandsRejectBadArgument | cmds.js:54-67 | with no argument, or one `parseInt` cannot read, both commands show the error and the prompt, and look nothing up |
| Commands.CommandsRejectUnknownId | cmds.js:219-223 | a number no quiz carries is reported as not found by both commands |

## Quirks of the program that the model keeps

- **Empty table.** With no quizzes `text[0]` is `undefined`. `validateId` rejects inside a promise
  chain that `bucle` never returns, so nothing is asked, no score is reported and the prompt is
  not offered again (`PlayCommand.PlayEmptyStore`). The program prints nothing of its own;
  Bluebird writes its "Unhandled rejection" message to standard error.
- **Errors in the play loop.** Nothing inside `bucle` catches a rejection: the rejected
  `validateId` at cmds.js:292, or the `TypeError` from reading `quiz.question` of a missing quiz at
  cmds.js:295, ends the session without a report or a prompt (`Aborted`). With ids taken from the
  table, a lookup cannot fail (`Session.BucleStep`).
- **The `catch` in `playCmd`** (cmds.js:339-341) is never reached. `settingUp` (cmds.js:251-261)
  resolves when `findAll` succeeds and never rejects, so a `findAll` error would leave the
  promise pending instead.
- **Random choice.** The drawn index is an input, and the model proves what holds for every valid
  draw. The probability distribution of `Math.random` is not stated.

## Left out

- Commands outside the modelled core are not modelled: `add`, `delete`, `edit`, `list`, `help`, `credits` and `quit`.
- Program glue is not modelled, because it has no behaviour of its own beyond the events listed above: `readline`, `log`, `biglog`, `errorlog` and `colorize`.
- The Sequelize ORM is not modelled. A database error from `findAll` or `findById` is left out. The `catch` in `playCmd` needs no model: `settingUp` never rejects, so it cannot be reached.
- Promise scheduling is not modelled, and neither is the "Unhandled rejection" message Bluebird writes to standard error for an uncaught rejection. Each command is modelled as the sequence of events it prints.
- `Math.random` is not modelled. The drawn index is an input, and a missing draw is taken as index 0.
- Message texts are not modelled. The events and errors stand for them; the `NotFound` message quotes the raw argument.
- A session that runs out of answer lines ends as `Waiting`. In the program it would still be waiting for input.
- The `TypeError` that `bucle` would raise when `findById` returns no quiz is modelled as an `Aborted(NotFound)` outcome with no further events, because nothing catches it. Valid draws on a table with unique keys never reach it.
- Text.LowerChar: lower-cases ASCII and Latin-1 letters only (U+00C0 to U+00DE, except U+00D7) and leaves every other character unchanged. It does not model the full Unicode case mapping of `toLowerCase`.
- Ids.ValidateId: `parseInt` is modelled over unbounded integers. It does not model the precision loss of doubles above 2^53. A result of `-0` is modelled as 0.
- Ids.ValueOfRender: `String(n)` is modelled as plain decimal digits. It does not model the exponent form JavaScript uses from 10^21 upwards.
