/**
  The turn state machine of the game (the global `state` record of
  project-4.js and the functions that update it), as pure transitions on a
  snapshot of that record. Each function here is named after the source
  function it describes; the class `Controller.Game` performs the same
  steps in place and is proved to agree with them.

  The secret word and the accepted-word list are constants of a session and
  are passed in. Whether the end-of-game dialog is open is a property of the
  page, not of `state`, and is passed to `Keystroke` as `modalOpen`.
*/
module Turns {
  import opened Evaluator
  import opened Keyboard

  /** Number of attempts: the rows of the board. */
  const MaxRows := 6

  /** A key that passed the source's one-letter test, lower-cased. */
  type Lower = c: char | 'a' <= c <= 'z' witness 'a'

  /** A key press or a click on an on-screen key. */
  datatype Input = Letter(c: Lower) | Enter | Backspace | Escape | Other

  /** The transient notices the game shows. */
  datatype Notice = WonNotice | OutOfTurns | InvalidKey | NotEnoughLetters | NotAWord

  /** The text each notice shows; it documents the notices and takes no part in the transitions. */
  function Message(n: Notice): string
  {
    match n
    case WonNotice => "Nice, you completed the Wordle!"
    case OutOfTurns => "Sorry, you're out of turns!"
    case InvalidKey => "Sorry that key isn't valid"
    case NotEnoughLetters => "Not enough letters"
    case NotAWord => "Not a word"
  }

  /** What a key press shows the player besides the state change. */
  datatype Reply = Silent | Notified(notice: Notice) | Scored(tags: seq<Tag>, won: bool) | ModalClosed

  /** The two kinds of endGame. */
  datatype EndKind = Completed | Tries

  /**
    The game record: the guess being typed, the tile cursor (1..5), the row
    (1..6), the terminal flags, and the colour classes of the keyboard keys.
  */
  datatype State = State(
    guess: seq<char>,
    tile: int,
    row: int,
    gameEnded: bool,
    completed: bool,
    keys: map<char, set<Tag>>)

  datatype Outcome = Outcome(state: State, reply: Reply)

  /**
    The invariant every reachable state keeps. While the game is on, the
    tile cursor sits right after the last letter, but never past tile 5.
  */
  predicate Valid(s: State)
  {
    && |s.guess| <= WordLength
    && 1 <= s.tile <= WordLength
    && 1 <= s.row <= MaxRows
    && (s.completed ==> s.gameEnded)
    && (!s.gameEnded ==> s.tile == Min(|s.guess| + 1, WordLength))
  }

  /** The record as the page starts: empty guess, first tile of the first row. */
  function Initial(): (s: State)
    ensures Valid(s) && !s.gameEnded && !s.completed && s.guess == []
  {
    State([], 1, 1, false, false, map[])
  }

  /** addTile: push the letter and move the cursor on, unless it is already on tile 5. */
  function AddTile(s: State, letter: char): (r: State)
    requires Valid(s) && |s.guess| < WordLength
    ensures Valid(r)
    ensures r.guess == s.guess + [letter] && r.tile == Min(s.tile + 1, WordLength)
    ensures r.(guess := s.guess, tile := s.tile) == s
  {
    s.(guess := s.guess + [letter], tile := if s.tile != WordLength then s.tile + 1 else WordLength)
  }

  /**
    buildGuess: append the letter while the guess is short; once it is full,
    the letter overwrites the fifth one. The guess then is cut to five.
  */
  function BuildGuess(s: State, letter: char): (r: State)
    requires Valid(s)
    ensures Valid(r)
    ensures |r.guess| == Min(|s.guess| + 1, WordLength)
    ensures r.guess == s.guess[..|r.guess| - 1] + [letter]
    ensures |s.guess| < WordLength ==> r.tile == Min(s.tile + 1, WordLength)
    ensures |s.guess| == WordLength ==> r.tile == s.tile
    ensures r.(guess := s.guess, tile := s.tile) == s
  {
    var added := if |s.guess| < WordLength then AddTile(s, letter) else s.(guess := s.guess[WordLength - 1 := letter]);
    added.(guess := added.guess[..Min(WordLength, |added.guess|)])
  }

  /** deleteTile: pop the last letter and put the cursor on the tile it occupied. */
  function DeleteTile(s: State): (r: State)
    requires Valid(s) && |s.guess| > 0
    ensures Valid(r)
    ensures r.guess + [s.guess[|s.guess| - 1]] == s.guess && r.tile == |s.guess|
    ensures r.(guess := s.guess, tile := s.tile) == s
  {
    s.(guess := s.guess[..|s.guess| - 1], tile := |s.guess|)
  }

  /** backSpace: delete the last letter, if there is one. */
  function BackSpace(s: State): (r: State)
    requires Valid(s)
    ensures Valid(r)
    ensures s.guess == [] ==> r == s
    ensures s.guess != [] ==> r.guess + [s.guess[|s.guess| - 1]] == s.guess && r.tile == |s.guess|
    ensures r.(guess := s.guess, tile := s.tile) == s
  {
    if |s.guess| > 0 then DeleteTile(s) else s
  }

  /** isValid: the joined letters are a word of the accepted list. */
  predicate IsValid(word: seq<char>, fullList: set<string>)
  {
    word in fullList
  }

  /** endGame: a completed game is marked completed; either way the game is over. */
  function EndGame(s: State, kind: EndKind): (r: State)
    ensures r.gameEnded
    ensures r.completed <==> s.completed || kind == Completed
    ensures r.(gameEnded := s.gameEnded, completed := s.completed) == s
  {
    s.(completed := if kind == Completed then true else s.completed, gameEnded := true)
  }

  /**
    handleResult: clear the guess; end the game on a win, on the last row,
    or when it is already over; otherwise move to the next row.
  */
  function HandleResult(s: State, result: bool): (r: State)
    requires Valid(s)
    ensures Valid(r)
    ensures r.guess == [] && r.keys == s.keys
    ensures !s.gameEnded && !result && s.row < MaxRows ==>
              r.row == s.row + 1 && r.tile == 1 && !r.gameEnded && r.completed == s.completed
    ensures s.gameEnded || result || s.row >= MaxRows ==>
              r.row == s.row && r.tile == s.tile && r.gameEnded && (r.completed <==> s.completed || result)
  {
    var cleared := s.(guess := []);
    if s.row >= MaxRows || result || s.gameEnded || s.completed then
      EndGame(cleared, if result then Completed else Tries)
    else
      cleared.(row := s.row + 1, tile := 1)
  }

  /**
    evaluateGuess on a full guess: score it, colour the keyboard from the
    scored letters, and hand the result to handleResult.
  */
  function Accept(s: State, secret: seq<char>): (r: Outcome)
    requires Valid(s) && |s.guess| == WordLength && |secret| == WordLength
    ensures Valid(r.state) && r.state.guess == []
    ensures r.reply == Scored(Score(s.guess, secret), s.guess == secret)
    ensures forall c :: ColoursOf(s.keys, c) <= ColoursOf(r.state.keys, c)
    ensures r.state.keys == Recolour(s.keys, KeyChangesOf(s.guess, Score(s.guess, secret)))
    ensures r.state.tile == if s.gameEnded || s.guess == secret || s.row >= MaxRows then s.tile else 1
    ensures r.state.row == if s.gameEnded || s.guess == secret || s.row >= MaxRows then s.row else s.row + 1
    ensures r.state.gameEnded <==> s.gameEnded || s.guess == secret || s.row >= MaxRows
    ensures r.state.completed <==> s.completed || s.guess == secret
  {
    var tags := Score(s.guess, secret);
    AllCorrectIffSecret(s.guess, secret);
    var won := AllCorrect(tags);
    var coloured := s.(keys := Recolour(s.keys, KeyChangesOf(s.guess, tags)));
    Outcome(HandleResult(coloured, won), Scored(tags, won))
  }

  /** Accept in steps: colour the keys from the scored guess, then handle the result. */
  lemma AcceptInSteps(s: State, secret: seq<char>)
    requires Valid(s) && |s.guess| == WordLength && |secret| == WordLength
    ensures var tags := Score(s.guess, secret);
            Accept(s, secret)
            == Outcome(HandleResult(s.(keys := Recolour(s.keys, KeyChangesOf(s.guess, tags))), s.guess == secret),
                       Scored(tags, s.guess == secret))
  {
    AllCorrectIffSecret(s.guess, secret);
  }

  /** checkGuess: refuse a short guess or an unknown word without touching the state. */
  function CheckGuess(s: State, secret: seq<char>, fullList: set<string>): (r: Outcome)
    requires Valid(s) && |secret| == WordLength
    ensures Valid(r.state)
    ensures |s.guess| < WordLength ==> r == Outcome(s, Notified(NotEnoughLetters))
    ensures |s.guess| == WordLength && s.guess !in fullList ==> r == Outcome(s, Notified(NotAWord))
    ensures |s.guess| == WordLength && s.guess in fullList ==> r == Accept(s, secret)
  {
    if |s.guess| < WordLength then Outcome(s, Notified(NotEnoughLetters))
    else if !IsValid(s.guess, fullList) then Outcome(s, Notified(NotAWord))
    else Accept(s, secret)
  }

  /**
    A guess is scored exactly when it has five letters and isValid finds it
    in the accepted list; otherwise checkGuess leaves the record as it was.
  */
  lemma ScoredExactlyListedWords(s: State, secret: seq<char>, fullList: set<string>)
    requires Valid(s) && |secret| == WordLength
    ensures CheckGuess(s, secret, fullList).reply.Scored?
            <==> |s.guess| == WordLength && IsValid(s.guess, fullList)
    ensures !CheckGuess(s, secret, fullList).reply.Scored? ==> CheckGuess(s, secret, fullList).state == s
  {
  }

  /**
    keystroke: once the game is over and the dialog is closed, every input
    only shows the outcome again. Otherwise Enter submits, Backspace
    deletes, Escape closes an open dialog, a letter is typed, and any
    other key shows a notice.
  */
  function Keystroke(s: State, input: Input, modalOpen: bool, secret: seq<char>, fullList: set<string>): (r: Outcome)
    requires Valid(s) && |secret| == WordLength
    ensures Valid(r.state)
    ensures s.gameEnded && !modalOpen ==>
              r == Outcome(s, Notified(if s.completed then WonNotice else OutOfTurns))
    ensures s.row <= r.state.row && (s.gameEnded ==> r.state.gameEnded && r.state.row == s.row)
    ensures s.completed ==> r.state.completed
    ensures forall c :: ColoursOf(s.keys, c) <= ColoursOf(r.state.keys, c)
    ensures !(s.gameEnded && !modalOpen) ==>
              && (input == Enter ==> r == CheckGuess(s, secret, fullList))
              && (input == Backspace ==> r == Outcome(BackSpace(s), Silent))
              && (input.Letter? ==> r == Outcome(BuildGuess(s, input.c), Silent))
              && (input == Escape ==> r == Outcome(s, if modalOpen then ModalClosed else Silent))
              && (input == Other ==> r == Outcome(s, Notified(InvalidKey)))
  {
    if s.gameEnded && s.completed && !modalOpen then Outcome(s, Notified(WonNotice))
    else if s.gameEnded && !s.completed && !modalOpen then Outcome(s, Notified(OutOfTurns))
    else
      match input
      case Enter => CheckGuess(s, secret, fullList)
      case Backspace => Outcome(BackSpace(s), Silent)
      case Escape => Outcome(s, if modalOpen then ModalClosed else Silent)
      case Letter(c) => Outcome(BuildGuess(s, c), Silent)
      case Other => Outcome(s, Notified(InvalidKey))
  }

  // Sequences of inputs.

  /** The state after a sequence of inputs, the dialog staying open or closed throughout. */
  function Run(s: State, inputs: seq<Input>, modalOpen: bool, secret: seq<char>, fullList: set<string>): (r: State)
    requires Valid(s) && |secret| == WordLength
    ensures Valid(r)
    decreases |inputs|
  {
    if inputs == [] then s
    else Run(Keystroke(s, inputs[0], modalOpen, secret, fullList).state, inputs[1..], modalOpen, secret, fullList)
  }

  /** Typing the letters of `w` one after the other. */
  function Letters(w: seq<Lower>): seq<Input>
  {
    seq(|w|, i requires 0 <= i < |w| => Letter(w[i]))
  }

  /** Pressing Backspace k times. */
  function Backspaces(k: nat): seq<Input>
  {
    seq(k, _ => Backspace)
  }

  /** One turn: type a word and press Enter. */
  function Turn(w: seq<Lower>): seq<Input>
  {
    Letters(w) + [Enter]
  }

  /** Several turns in a row. */
  function TurnsOf(words: seq<seq<Lower>>): seq<Input>
  {
    if words == [] then [] else Turn(words[0]) + TurnsOf(words[1..])
  }

  /** Running two input sequences one after the other is running their concatenation. */
  lemma {:induction false} RunAppend(s: State, a: seq<Input>, b: seq<Input>, modalOpen: bool, secret: seq<char>, fullList: set<string>)
    requires Valid(s) && |secret| == WordLength
    ensures Run(s, a + b, modalOpen, secret, fullList)
            == Run(Run(s, a, modalOpen, secret, fullList), b, modalOpen, secret, fullList)
    decreases |a|
  {
    if a == [] {
      assert a + b == b;
    } else {
      var next := Keystroke(s, a[0], modalOpen, secret, fullList).state;
      assert (a + b)[0] == a[0] && (a + b)[1..] == a[1..] + b;
      assert Run(s, a + b, modalOpen, secret, fullList) == Run(next, a[1..] + b, modalOpen, secret, fullList);
      RunAppend(next, a[1..], b, modalOpen, secret, fullList);
    }
  }

  /**
    While the game is on, typing letters that fit appends them to the guess
    and leaves the cursor after the last one.
  */
  lemma {:induction false} TypeLetters(s: State, w: seq<Lower>, modalOpen: bool, secret: seq<char>, fullList: set<string>)
    requires Valid(s) && |secret| == WordLength && !s.gameEnded
    requires |s.guess| + |w| <= WordLength
    ensures Run(s, Letters(w), modalOpen, secret, fullList)
            == s.(guess := s.guess + w, tile := Min(|s.guess| + |w| + 1, WordLength))
    decreases |w|
  {
    if w == [] {
      assert s.guess + w == s.guess;
    } else {
      var next := BuildGuess(s, w[0]);
      assert Keystroke(s, Letters(w)[0], modalOpen, secret, fullList).state == next;
      assert Letters(w)[1..] == Letters(w[1..]);
      TypeLetters(next, w[1..], modalOpen, secret, fullList);
      assert next.guess + w[1..] == s.guess + w;
    }
  }

  /**
    While the game is on, k Backspaces remove the last k letters; the cursor
    ends on the tile of the last one removed.
  */
  lemma {:induction false} EraseLetters(s: State, k: nat, modalOpen: bool, secret: seq<char>, fullList: set<string>)
    requires Valid(s) && |secret| == WordLength && !s.gameEnded
    requires k <= |s.guess|
    ensures Run(s, Backspaces(k), modalOpen, secret, fullList)
            == s.(guess := s.guess[..|s.guess| - k], tile := if k == 0 then s.tile else |s.guess| - k + 1)
    decreases k
  {
    if k == 0 {
      assert s.guess[..|s.guess|] == s.guess;
    } else {
      var next := BackSpace(s);
      assert Keystroke(s, Backspaces(k)[0], modalOpen, secret, fullList).state == next;
      assert Backspaces(k)[1..] == Backspaces(k - 1);
      EraseLetters(next, k - 1, modalOpen, secret, fullList);
      assert next.guess == s.guess[..|s.guess| - 1];
      assert next.guess[..|next.guess| - (k - 1)] == s.guess[..|s.guess| - k];
    }
  }

  /**
    While the game is on, typing letters that fit and then erasing as many
    gives back exactly the state before, cursor included.
  */
  lemma TypeThenErase(s: State, w: seq<Lower>, modalOpen: bool, secret: seq<char>, fullList: set<string>)
    requires Valid(s) && |secret| == WordLength && !s.gameEnded
    requires |s.guess| + |w| <= WordLength
    ensures Run(s, Letters(w) + Backspaces(|w|), modalOpen, secret, fullList) == s
  {
    RunAppend(s, Letters(w), Backspaces(|w|), modalOpen, secret, fullList);
    TypeLetters(s, w, modalOpen, secret, fullList);
    var typed := s.(guess := s.guess + w, tile := Min(|s.guess| + |w| + 1, WordLength));
    EraseLetters(typed, |w|, modalOpen, secret, fullList);
    assert typed.guess[..|typed.guess| - |w|] == s.guess;
  }

  /** Up to five letters and as many Backspaces from the start leave the guess empty and the cursor on tile 1. */
  lemma TypeAndEraseFromStart(w: seq<Lower>, modalOpen: bool, secret: seq<char>, fullList: set<string>)
    requires |w| <= WordLength && |secret| == WordLength
    ensures var r := Run(Initial(), Letters(w) + Backspaces(|w|), modalOpen, secret, fullList);
            r.guess == [] && r.tile == 1
  {
    TypeThenErase(Initial(), w, modalOpen, secret, fullList);
  }

  /**
    A turn that submits an accepted word other than the secret, typed into
    an empty guess, moves to the next row, or ends the game without a win
    when it was the last row.
  */
  lemma LosingTurn(s: State, w: seq<Lower>, modalOpen: bool, secret: seq<char>, fullList: set<string>)
    requires Valid(s) && |secret| == WordLength && !s.gameEnded && s.guess == []
    requires |w| == WordLength && w in fullList && w != secret
    ensures var r := Run(s, Turn(w), modalOpen, secret, fullList);
            && r.guess == [] && r.completed == s.completed && r.keys.Keys >= s.keys.Keys
            && (s.row < MaxRows ==> r.row == s.row + 1 && r.tile == 1 && !r.gameEnded)
            && (s.row == MaxRows ==> r.row == s.row && r.gameEnded)
  {
    RunAppend(s, Letters(w), [Enter], modalOpen, secret, fullList);
    TypeLetters(s, w, modalOpen, secret, fullList);
    var typed := s.(guess := s.guess + w, tile := WordLength);
    assert typed.guess == w;
    var r := Keystroke(typed, Enter, modalOpen, secret, fullList);
    assert r == Accept(typed, secret);
    assert Run(s, Turn(w), modalOpen, secret, fullList) == r.state;
    forall c | c in s.keys
      ensures c in r.state.keys
    {
      assert ColoursOf(s.keys, c) <= ColoursOf(r.state.keys, c);
    }
  }

  /**
    Submitting accepted words that are not the secret, one per row, keeps the
    game going until the sixth row is used; that guess ends it as a loss.
  */
  lemma {:induction false} LosingTurns(s: State, words: seq<seq<Lower>>, modalOpen: bool, secret: seq<char>, fullList: set<string>)
    requires Valid(s) && |secret| == WordLength && !s.gameEnded && s.guess == [] && !s.completed
    requires |words| <= MaxRows + 1 - s.row
    requires forall i :: 0 <= i < |words| ==> |words[i]| == WordLength && words[i] in fullList && words[i] != secret
    ensures var r := Run(s, TurnsOf(words), modalOpen, secret, fullList);
            && r.guess == [] && !r.completed
            && (|words| < MaxRows + 1 - s.row ==> r.row == s.row + |words| && !r.gameEnded)
            && (|words| == MaxRows + 1 - s.row ==> r.row == MaxRows && r.gameEnded)
    decreases |words|
  {
    if words != [] {
      RunAppend(s, Turn(words[0]), TurnsOf(words[1..]), modalOpen, secret, fullList);
      LosingTurn(s, words[0], modalOpen, secret, fullList);
      var next := Run(s, Turn(words[0]), modalOpen, secret, fullList);
      if s.row < MaxRows {
        LosingTurns(next, words[1..], modalOpen, secret, fullList);
      } else {
        assert |words| == 1 && TurnsOf(words[1..]) == [];
      }
    }
  }

  /** Six accepted non-secret words from the start end the game as a loss; five do not. */
  lemma SixLosingGuesses(words: seq<seq<Lower>>, modalOpen: bool, secret: seq<char>, fullList: set<string>)
    requires |secret| == WordLength && |words| == MaxRows
    requires forall i :: 0 <= i < |words| ==> |words[i]| == WordLength && words[i] in fullList && words[i] != secret
    ensures Run(Initial(), TurnsOf(words[..MaxRows - 1]), modalOpen, secret, fullList).row == MaxRows
    ensures !Run(Initial(), TurnsOf(words[..MaxRows - 1]), modalOpen, secret, fullList).gameEnded
    ensures Run(Initial(), TurnsOf(words), modalOpen, secret, fullList).gameEnded
    ensures !Run(Initial(), TurnsOf(words), modalOpen, secret, fullList).completed
  {
    LosingTurns(Initial(), words[..MaxRows - 1], modalOpen, secret, fullList);
    LosingTurns(Initial(), words, modalOpen, secret, fullList);
  }

  // What the end-of-game gate lets through while the dialog is open.

  /** With the dialog open after the game ended, letters are still typed into the guess. */
  lemma LettersAfterEndWhileModalOpen(s: State, c: Lower, secret: seq<char>, fullList: set<string>)
    requires Valid(s) && |secret| == WordLength && s.gameEnded && |s.guess| < WordLength
    ensures Keystroke(s, Letter(c), true, secret, fullList).state.guess == s.guess + [c]
  {
  }

  /**
    With the dialog open after a loss, submitting the secret word (if it is
    an accepted word) runs endGame again and marks the game completed.
  */
  lemma WinAfterLossWhileModalOpen(s: State, secret: seq<char>, fullList: set<string>)
    requires Valid(s) && |secret| == WordLength && s.gameEnded && !s.completed
    requires s.guess == secret && secret in fullList
    ensures var r := Keystroke(s, Enter, true, secret, fullList);
            r.state.completed && r.state.gameEnded && r.state.row == s.row && r.reply.Scored? && r.reply.won
  {
  }
}
