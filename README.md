# Wordle clone: guess scoring and turn logic

This project models the game logic of a browser Wordle clone (`project-4.js`)
with the page rendering removed, and proves its properties in Dafny.

- `Evaluator` (`evaluator.dfy`) covers `evaluateGuess`, which scores a five-letter
  guess against the secret word.
  - The method `EvaluateGuess` is the source's algorithm. It has three loops:
    - a dictionary counting the secret's letters;
    - a first pass that tags exact matches `Correct` and consumes their copies;
    - a left-to-right second pass that tags a position `Present` while copies of
      its letter remain.
  - `Score` is an independent, declarative definition of the verdicts. A
    non-exact position is `Present` exactly when fewer non-exact occurrences of
    its letter lie to its left than the secret has unmatched copies of it.
  - The method is proved to compute `Score`.
  - The lemmas about `Score` cover:
    - the multiset bound: the marked letters are the common part of guess and
      secret;
    - exact-match priority;
    - left-to-right allocation of `Present`;
    - the win test.
- `Keyboard` (`keyboard.dfy`) covers the key colouring of `updateDisplay`.
  - Each letter of a scored guess gets the verdict of its last occurrence.
  - Each on-screen key gains the colour class of its letter's verdict.
  - Classes are only ever added.
- `Turns` (`turns.dfy`) covers the global `state` record and the functions that
  change it: `buildGuess`, `addTile`, `backSpace`, `deleteTile`, `isValid`,
  `checkGuess`, `handleResult`, `endGame` and the dispatcher `keystroke`.
  - These are pure transitions on a `State` value, with an invariant `Valid` that
    every transition keeps.
  - `Run` replays a sequence of inputs, so lemmas can state multi-step facts:
    typing then erasing, and six losing turns.
  - Single-step lemmas about `Keystroke` state what input does after the end of
    the game while the dialog is open.
- `Controller` (`controller.dfy`) has the class `Game`, whose fields are those of
  the source's `state` record.
  - Its methods update the fields in place, as the source does.
  - Each method is proved to leave the record in the state that the matching
    `Turns` transition describes.

The secret word, the accepted-word list and whether the end-of-game dialog is
open are inputs. A key press is a value of `Input`:
- a lower-case letter;
- Enter, Backspace or Escape;
- any other key, which only shows a notice.

Behaviour of the code that the model keeps on purpose:
- **A sixth letter overwrites the fifth.** The guess stays at five letters.
- **The end-of-game gate applies only while the dialog is closed.**
  - While the dialog is open, input still reaches `buildGuess` and `checkGuess`
    after the game has ended.
  - `LettersAfterEndWhileModalOpen` proves this for letters.
- **`handleResult` takes the ending branch whenever the game is already over.**
  - So a valid guess after the end runs `endGame` again.
  - Submitting the secret after a loss marks the game completed
    (`WinAfterLossWhileModalOpen`).
- **The tile cursor is not reset when the game ends.**
  - The invariant ties the cursor to the guess length only while the game is on.
- **Keyboard colours accumulate.** A key that was `Present` and later `Correct`
  carries both classes. No verdict replaces another.
- **Duplicate letters follow the code.**
  - For secret SPEED and guess ERASE the verdicts are Present, Absent, Absent,
    Present, Present (`ScoreSpeedErase`).
  - The final E is Present, not Correct, because the secret's fifth letter is D.
  - For secret HELLO and guess LOLLY, the two exact L matches use up both copies
    of L, so the leading L is Absent (`ScoreLollyHello`).

## Model

| member | source | states |
|---|---|---|
| Evaluator.Score | project-4.js:243-248 | The reference verdicts: one tag per guess letter, and a tag is Correct exactly when the guess and the secret agree at that position |
| Evaluator.CountLetters | project-4.js:234-241 | The dictionary's keys are exactly the letters of the secret, and each maps to its number of copies in the secret |
| Evaluator.MarkExact | project-4.js:243-248 | After the first pass, exact matches are Correct and every other position is Absent. Each letter's count is its copies in the secret minus its exact matches, so it is never negative |
| Evaluator.ExactWithinSecret | project-4.js:243-248 | The exact matches of a letter never outnumber its copies in the secret, so the first pass never drives a count below zero |
| Evaluator.PresentStep | project-4.js:250-257 | The second pass's test at position i gives the reference verdict there. The test is: not Correct, the letter occurs in the secret, and its count is positive |
| Evaluator.RemainingStep | project-4.js:250-257 | One step of the second pass takes one copy of the letter exactly when it tags the position Present, and leaves the other counts alone |
| Evaluator.MarkPresentAt | project-4.js:251-256 | One iteration of the second pass sets position i to its reference verdict and updates the dictionary as the source does. No count becomes negative |
| Evaluator.MarkPresent | project-4.js:250-257 | The second pass, run over all five positions after the first pass, yields exactly the reference verdicts `Score` |
| Evaluator.EvaluateGuess | project-4.js:227-259 | The source's three loops compute exactly `Score(guess, secret)`, and `completed` holds exactly when the guess is the secret |
| Evaluator.PresentCountIsMin | project-4.js:250-257 | Over any prefix, a letter gets min(misplaced occurrences so far, unmatched copies in the secret) Present tags |
| Evaluator.MarkedSplit | project-4.js:243-257 | When Correct sits exactly on the exact matches, the tagged copies of a letter are its exact matches plus its Present tags |
| Evaluator.MarkedCountIsMin | project-4.js:234-257 | Each letter is tagged Correct or Present min(copies in guess, copies in secret) times |
| Evaluator.MarkedIsCommonLetters | project-4.js:234-257 | The letters tagged Correct or Present are, as a multiset, the intersection of the guess and the secret; in particular no letter is tagged more often than the secret holds it |
| Evaluator.PresentWhileCopiesRemain | project-4.js:252-256 | A non-exact position is Present if and only if fewer Present tags went to its letter on its left than the secret has unmatched copies of it |
| Evaluator.PresentOccursInSecret | project-4.js:253 | A Present letter occurs in the secret and is not an exact match |
| Evaluator.PresentLeftToRight | project-4.js:250-257 | Present goes to the leftmost duplicates first: if a later copy of a letter is Present, every earlier non-Correct copy is Present |
| Evaluator.AllCorrect | project-4.js:259 | The `every` test of the win check: all tags are Correct. What it means for a scored guess (the guess is the secret) is proved by `AllCorrectIffSecret` and by the `completed` clause of `EvaluateGuess` |
| Evaluator.AllCorrectIffSecret | project-4.js:259 | All five tags are Correct if and only if the guess equals the secret |
| Evaluator.ScoreSpeedErase | project-4.js:227-259 | Secret SPEED, guess ERASE scores Present, Absent, Absent, Present, Present |
| Evaluator.ScoreLollyHello | project-4.js:227-259 | Secret HELLO, guess LOLLY scores Absent, Present, Correct, Correct, Absent |
| Keyboard.KeyChangesOf | project-4.js:277-291 | The key-change map has exactly the letters of the guess as keys, each with the verdict of its last occurrence |
| Keyboard.KeyChangesExtend | project-4.js:278-290 | Handling one more position overwrites that letter's entry with the position's verdict |
| Keyboard.KeyChanges | project-4.js:277-291 | The loop of updateDisplay builds exactly `KeyChangesOf(guess, tags)` |
| Keyboard.Recolour | project-4.js:292-298 | A key's classes only grow. Each keyboard letter in the map gains its verdict, and no other key changes |
| Turns.Initial | project-4.js:7-14 | The starting record is valid: empty guess, game neither ended nor completed |
| Turns.AddTile | project-4.js:162-177 | The letter is appended, the cursor moves on but never past tile 5, and nothing else changes |
| Turns.BuildGuess | project-4.js:150-160 | The guess grows by the letter while short. Once full, the letter replaces the fifth and the length stays five. While the game is on, the cursor is min(length+1, 5); the invariant holds |
| Turns.DeleteTile | project-4.js:185-197 | Removes exactly the last letter and sets the cursor to the old length; nothing else changes |
| Turns.BackSpace | project-4.js:179-183 | A no-op on an empty guess; otherwise removes exactly the last letter and sets the cursor to the old length |
| Turns.EndGame | project-4.js:337-348 | The game is ended. It is completed exactly when it was completed before or the end is a win. Nothing else changes |
| Turns.HandleResult | project-4.js:301-335 | Clears the guess and keeps the key colours. A non-winning guess in a running game below row 6 advances the row by one and resets the cursor to 1. On a win, on row 6 or in an ended game it ends the game, and completed then records a win |
| Turns.Accept | project-4.js:227-298 | A full accepted guess replies with `Score`, and the guess is cleared. The key colours become `Recolour` of the old ones by `KeyChangesOf` of the scored guess, so they only grow and each guessed letter's key gains the verdict of its last occurrence. The row, ended and completed flags follow from whether it won, the row, and whether the game had ended. The cursor returns to 1 on a new row and stays put when the game ends |
| Turns.CheckGuess | project-4.js:203-225 | A short guess or a word outside the list changes no state and gives the matching notice. An accepted word is scored by `Accept` |
| Turns.ScoredExactlyListedWords | project-4.js:199-218 | A guess is scored if and only if it has five letters and `isValid` finds it in the accepted list; any other guess leaves the record unchanged |
| Turns.Keystroke | project-4.js:82-122 | An ended game with the dialog closed only repeats the outcome notice and changes nothing. Otherwise Enter runs `CheckGuess`, Backspace runs `BackSpace` and a letter runs `BuildGuess`. Escape leaves the record unchanged and closes an open dialog. Any other key only shows the invalid-key notice. In every case the invariant holds, the row never decreases, an ended game stays ended, completed stays set, and key colours only grow |
| Turns.Run | project-4.js:82-122 | Every sequence of key presses keeps the invariant: guess at most 5 letters, cursor in 1..5, row in 1..6, completed only when ended |
| Turns.RunAppend | project-4.js:82-122 | Replaying two input sequences one after the other is replaying their concatenation |
| Turns.TypeLetters | project-4.js:150-177 | In a running game, typing letters that fit appends them and leaves the cursor after the last one, or on tile 5 once the guess is full |
| Turns.EraseLetters | project-4.js:179-197 | In a running game, k Backspaces remove the last k letters and leave the cursor on the tile of the last one removed |
| Turns.TypeThenErase | project-4.js:150-197 | Typing letters that fit and then erasing as many restores the record exactly |
| Turns.TypeAndEraseFromStart | project-4.js:150-197 | From the start, k <= 5 letters followed by k Backspaces leave an empty guess with the cursor on tile 1 |
| Turns.LosingTurn | project-4.js:301-335 | An accepted non-secret word typed into an empty guess advances the row, or ends the game without a win on row 6. The guess is left empty |
| Turns.LosingTurns | project-4.js:301-335 | Repeated losing turns add one row each until the sixth is used; that one ends the game, never completed |
| Turns.SixLosingGuesses | project-4.js:303-316 | From the start, five losing guesses leave the game running on row 6; the sixth ends it as a loss |
| Turns.LettersAfterEndWhileModalOpen | project-4.js:83-88 | With the dialog open after the end, a letter is still typed into the guess |
| Turns.WinAfterLossWhileModalOpen | project-4.js:301-339 | With the dialog open after a loss, submitting the secret scores it as a win and marks the game completed |
| Controller.Game.constructor | project-4.js:7-14 | A new game record is valid and equals `Turns.Initial()` |
| Controller.Game.AddTile | project-4.js:162-177 | The fields are updated in place to exactly `Turns.AddTile` of the old record |
| Controller.Game.BuildGuess | project-4.js:150-160 | The fields are updated in place to exactly `Turns.BuildGuess` of the old record, keeping `Valid` |
| Controller.Game.DeleteTile | project-4.js:185-197 | The fields are updated in place to exactly `Turns.DeleteTile` of the old record |
| Controller.Game.BackSpace | project-4.js:179-183 | The fields are updated in place to exactly `Turns.BackSpace` of the old record |
| Controller.Game.UpdateDisplay | project-4.js:274-298 | Only the key colours change, to `Recolour` of the old ones by `KeyChangesOf` of the guess; the rest of the record is untouched |
| Controller.Game.EndGame | project-4.js:337-348 | The fields are updated in place to exactly `Turns.EndGame` of the old record |
| Controller.Game.HandleResult | project-4.js:301-335 | The fields are updated in place to exactly `Turns.HandleResult` of the old record, keeping `Valid` |
| Controller.Game.EvaluateGuess | project-4.js:227-272 | Scoring, colouring and handling the result in place yields exactly the outcome of `Turns.Accept` |
| Controller.Game.CheckGuess | project-4.js:203-225 | The in-place update and the reply are exactly those of `Turns.CheckGuess` |
| Controller.Game.Keystroke | project-4.js:82-122 | The in-place update and the reply are exactly those of `Turns.Keystroke`, so every property proved of it holds for the class |

## Left out

- Rendering is not modelled:
  - building the board and the keyboard (`createTiles`, `createKeys`);
  - the tile and key class toggling other than the key colours;
  - the shake, bounce and active-tile highlights;
  - the `key-disabled` class that `endGame` adds;
  - the dialog's contents (`openModal`).
- Notices are replies (`Reply.Notified` with the source's exact strings in
  `Turns.Message`). Their display and fade-out timer are not modelled.
- Whether the dialog is open is a boolean input. Opening it in `endGame`,
  closing it on a backdrop click, and its DOM test (`modalIsOpen`) are not
  modelled.
  - Escape with the dialog open yields the reply `ModalClosed` and leaves the
    record unchanged.
- Event wiring (`listenForEvents`) is not modelled.
- The `KeyboardEvent`/`PointerEvent` distinction becomes the `Input` datatype:
  - a key that passes the one-letter test becomes a lower-case `Letter`;
  - any other keyboard key becomes `Other`;
  - Unicode lower-casing of other characters is not modelled.
- Secret selection (`chooseWord`, `Math.random`) is not modelled: the secret is
  a parameter of length five.
- The contents of the word lists are not modelled: `wordle-list.js` and
  `full-list.js` are not part of this model, and the accepted list is an
  abstract set of strings.
- The deferred win is not modelled. Turns.HandleResult and
  Controller.Game.HandleResult run `endGame("completed")` at once.
  - The source runs it from a timer after the bounce animation.
  - The model therefore leaves out the short window after a winning guess: the
    guess is already cleared, but the game is not yet ended and input is still
    accepted.
  - In that window the source breaks the cursor clause of `Turns.Valid`: the
    guess is empty and the game is on, but the cursor stays on tile 5.
  - A losing word submitted in that window still advances the row before the
    timer marks the game completed.
  - Every proved fact that relies on the win ending the game at once
    (`Turns.Valid`, `Turns.HandleResult`, `Turns.Accept` and the lemmas over
    `Run`) therefore describes the atomic win, not that window.
- The deferred highlight of the next row's first tile is not modelled.
- The `console.log` output is not modelled.
- Controller.Game.DeleteTile does not model the early return when the tile
  element is missing.
  - The tile index is the guess length, 1 to 5 at that point, on rows 1 to 6.
  - So that tile always exists and the return cannot happen.
- Letters are `char` values compared exactly, as the source's `===` and
  dictionary keys compare them.
