/**
  The keyboard colouring done by updateDisplay in project-4.js.

  After a guess is scored, every letter of the guess is mapped to a verdict
  (`keyChanges`); a letter that occurs several times ends with the verdict
  of its LAST occurrence, because later positions overwrite earlier ones.
  Each on-screen key whose letter is in that map then gains the colour
  class of the verdict. Classes are only ever added, so the set of colours
  of a key only grows over a game.
*/
module Keyboard {
  import opened Evaluator

  /** The letter keys of the on-screen QWERTY keyboard, lower-cased as the source compares them. */
  const KeyboardLetters: set<char> := set c: char | 'a' <= c <= 'z'

  /** The position of the last occurrence of `c` in `guess`. */
  function LastIndex(guess: seq<char>, c: char): (r: nat)
    requires c in guess
    ensures r < |guess| && guess[r] == c
    ensures forall k :: r < k < |guess| ==> guess[k] != c
  {
    if guess[|guess| - 1] == c then |guess| - 1
    else LastIndex(guess[..|guess| - 1], c)
  }

  /** The letter-to-verdict map of one guess: each letter gets the verdict of its last occurrence. */
  function KeyChangesOf(guess: seq<char>, tags: seq<Tag>): (r: map<char, Tag>)
    requires |guess| == |tags|
    ensures forall c :: c in r <==> c in guess
    ensures forall j :: 0 <= j < |guess| && (forall k :: j < k < |guess| ==> guess[k] != guess[j])
              ==> r[guess[j]] == tags[j]
  {
    map c | c in guess :: tags[LastIndex(guess, c)]
  }

  /** Taking one more position into account overwrites the entry of its letter. */
  lemma KeyChangesExtend(guess: seq<char>, tags: seq<Tag>, i: nat)
    requires |guess| == |tags| && i < |guess|
    ensures KeyChangesOf(guess[..i + 1], tags[..i + 1]) == KeyChangesOf(guess[..i], tags[..i])[guess[i] := tags[i]]
  {
    var longer, shorter := KeyChangesOf(guess[..i + 1], tags[..i + 1]), KeyChangesOf(guess[..i], tags[..i]);
    assert guess[..i + 1] == guess[..i] + [guess[i]];
    forall c | c in longer
      ensures longer[c] == shorter[guess[i] := tags[i]][c]
    {
      if c != guess[i] {
        var j := LastIndex(guess[..i + 1], c);
        assert j < i;
        assert guess[..i][j] == c;
        assert LastIndex(guess[..i], c) == j;
      }
    }
  }

  /** The loop of updateDisplay that fills `keyChanges` position by position. */
  method KeyChanges(guess: seq<char>, tags: seq<Tag>) returns (keyChanges: map<char, Tag>)
    requires |guess| == |tags|
    ensures keyChanges == KeyChangesOf(guess, tags)
  {
    keyChanges := map[];
    for i := 0 to |tags|
      invariant keyChanges == KeyChangesOf(guess[..i], tags[..i])
    {
      KeyChangesExtend(guess, tags, i);
      keyChanges := keyChanges[guess[i] := tags[i]];
    }
    assert guess[..|guess|] == guess && tags[..|tags|] == tags;
  }

  /** The colour classes a key carries, none if it was never coloured. */
  function ColoursOf(colours: map<char, set<Tag>>, c: char): set<Tag>
  {
    if c in colours then colours[c] else {}
  }

  /**
    Every keyboard key whose letter has an entry in `keyChanges` gains that
    verdict's colour; no class is ever removed.
  */
  function Recolour(colours: map<char, set<Tag>>, keyChanges: map<char, Tag>): (r: map<char, set<Tag>>)
    ensures forall c :: ColoursOf(colours, c) <= ColoursOf(r, c)
    ensures forall c :: c in keyChanges && c in KeyboardLetters ==> keyChanges[c] in ColoursOf(r, c)
    ensures forall c :: c !in keyChanges || c !in KeyboardLetters ==> ColoursOf(r, c) == ColoursOf(colours, c)
    ensures forall c :: ColoursOf(r, c) - ColoursOf(colours, c) <= (if c in keyChanges then {keyChanges[c]} else {})
  {
    map c | c in colours.Keys + (keyChanges.Keys * KeyboardLetters) ::
      ColoursOf(colours, c) + (if c in keyChanges && c in KeyboardLetters then {keyChanges[c]} else {})
  }
}
