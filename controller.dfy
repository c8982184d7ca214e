/**
  The game record of project-4.js as the page holds it: one object whose
  fields the input handlers overwrite in place. Every method performs the
  source function of the same name on the fields and is proved to leave
  the record in the state the matching transition of `Turns` describes;
  the properties of the game are proved about those transitions.
*/
module Controller {
  import opened Evaluator
  import opened Keyboard
  import opened Turns

  class Game {
    /** The secret word, chosen once when the page starts. */
    const secret: seq<char>
    /** The accepted-word list. */
    const fullList: set<string>

    var guess: seq<char>
    var tile: int
    var row: int
    var gameEnded: bool
    var completed: bool
    /** The colour classes each keyboard key carries. */
    var keys: map<char, set<Tag>>

    function Snapshot(): State
      reads this
    {
      State(guess, tile, row, gameEnded, completed, keys)
    }

    predicate Valid()
      reads this
    {
      |secret| == WordLength && Turns.Valid(Snapshot())
    }

    constructor (secret: seq<char>, fullList: set<string>)
      requires |secret| == WordLength
      ensures Valid() && this.secret == secret && this.fullList == fullList
      ensures Snapshot() == Initial()
    {
      this.secret := secret;
      this.fullList := fullList;
      guess, tile, row := [], 1, 1;
      gameEnded, completed := false, false;
      keys := map[];
    }

    method AddTile(letter: Lower)
      requires Valid() && |guess| < WordLength
      modifies this
      ensures Valid() && Snapshot() == Turns.AddTile(old(Snapshot()), letter)
    {
      guess := guess + [letter];
      if tile != WordLength {
        tile := tile + 1;
      } else {
        tile := WordLength;
      }
    }

    method BuildGuess(letter: Lower)
      requires Valid()
      modifies this
      ensures Valid() && Snapshot() == Turns.BuildGuess(old(Snapshot()), letter)
    {
      if |guess| < WordLength {
        AddTile(letter);
      } else {
        guess := guess[WordLength - 1 := letter];
      }
      guess := guess[..Min(WordLength, |guess|)];
    }

    method DeleteTile()
      requires Valid() && |guess| > 0
      modifies this
      ensures Valid() && Snapshot() == Turns.DeleteTile(old(Snapshot()))
    {
      var index := |guess|;
      guess := guess[..|guess| - 1];
      tile := index;
    }

    method BackSpace()
      requires Valid()
      modifies this
      ensures Valid() && Snapshot() == Turns.BackSpace(old(Snapshot()))
    {
      if |guess| > 0 {
        DeleteTile();
      }
    }

    /** The keyboard part of updateDisplay: colour the keys of the scored letters. */
    method UpdateDisplay(tags: seq<Tag>)
      requires |tags| == |guess|
      modifies this`keys
      ensures keys == Recolour(old(keys), KeyChangesOf(guess, tags))
      ensures Snapshot() == old(Snapshot()).(keys := Recolour(old(keys), KeyChangesOf(guess, tags)))
    {
      var keyChanges := KeyChanges(guess, tags);
      keys := Recolour(keys, keyChanges);
    }

    method EndGame(kind: EndKind)
      modifies this
      ensures Snapshot() == Turns.EndGame(old(Snapshot()), kind)
    {
      if kind == Completed {
        completed := true;
      }
      gameEnded := true;
    }

    method HandleResult(result: bool)
      requires Valid()
      modifies this
      ensures Valid() && Snapshot() == Turns.HandleResult(old(Snapshot()), result)
    {
      guess := [];
      if row >= MaxRows || result || gameEnded || completed {
        if result {
          // The page runs this after the bounce animation; here it happens at once.
          EndGame(Completed);
        } else {
          EndGame(Tries);
        }
      } else {
        row := row + 1;
        tile := 1;
      }
    }

    /** evaluateGuess: score the full guess, colour the keyboard, then handle the result. */
    method EvaluateGuess() returns (tags: seq<Tag>, won: bool)
      requires Valid() && |guess| == WordLength
      modifies this
      ensures Valid() && Outcome(Snapshot(), Scored(tags, won)) == Accept(old(Snapshot()), secret)
    {
      ghost var before := Snapshot();
      AcceptInSteps(before, secret);
      tags, won := Evaluator.EvaluateGuess(guess, secret);
      UpdateDisplay(tags);
      ghost var coloured := Snapshot();
      HandleResult(won);
      assert Snapshot() == Turns.HandleResult(coloured, won);
    }

    method CheckGuess() returns (reply: Reply)
      requires Valid()
      modifies this
      ensures Valid() && Outcome(Snapshot(), reply) == Turns.CheckGuess(old(Snapshot()), secret, fullList)
    {
      if |guess| < WordLength {
        reply := Notified(NotEnoughLetters);
      } else if !IsValid(guess, fullList) {
        reply := Notified(NotAWord);
      } else {
        var tags, won := EvaluateGuess();
        reply := Scored(tags, won);
      }
    }

    method Keystroke(input: Input, modalOpen: bool) returns (reply: Reply)
      requires Valid()
      modifies this
      ensures Valid()
      ensures Outcome(Snapshot(), reply) == Turns.Keystroke(old(Snapshot()), input, modalOpen, secret, fullList)
    {
      if gameEnded && completed && !modalOpen {
        return Notified(WonNotice);
      } else if gameEnded && !completed && !modalOpen {
        return Notified(OutOfTurns);
      }
      match input {
        case Enter =>
          reply := CheckGuess();
        case Backspace =>
          BackSpace();
          reply := Silent;
        case Escape =>
          reply := if modalOpen then ModalClosed else Silent;
        case Letter(c) =>
          BuildGuess(c);
          reply := Silent;
        case Other =>
          reply := Notified(InvalidKey);
      }
    }
  }
}
