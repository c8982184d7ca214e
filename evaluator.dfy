/**
  The guess evaluator of the game (evaluateGuess in project-4.js).

  A guess is compared with the secret word position by position. Exact
  matches are tagged Correct first and consume one copy of their letter;
  then, from left to right, every other position is tagged Present while
  unconsumed copies of its letter remain in the secret, and Absent
  otherwise.

  `Score` is a declarative reference definition of the verdicts; the method
  `EvaluateGuess` is the source's two-pass algorithm over a letter-count
  dictionary and is proved to compute `Score`.
*/
module Evaluator {

  /** Every word of the game has five letters. */
  const WordLength := 5

  datatype Tag = Correct | Present | Absent

  function Min(a: int, b: int): int
  {
    if a <= b then a else b
  }

  /** Number of positions j < n where guess and secret both hold `c`. */
  function ExactMatches(guess: seq<char>, secret: seq<char>, n: nat, c: char): nat
    requires n <= |guess| && n <= |secret|
  {
    if n == 0 then 0
    else ExactMatches(guess, secret, n - 1, c)
         + (if guess[n - 1] == c && secret[n - 1] == c then 1 else 0)
  }

  /** Number of positions j < n where the guess holds `c` but the secret does not. */
  function Misplaced(guess: seq<char>, secret: seq<char>, n: nat, c: char): nat
    requires n <= |guess| && n <= |secret|
  {
    if n == 0 then 0
    else Misplaced(guess, secret, n - 1, c)
         + (if guess[n - 1] == c && secret[n - 1] != c then 1 else 0)
  }

  /** Exact matches of `c` never outnumber the copies of `c` in the secret. */
  lemma {:induction false} ExactWithinSecret(guess: seq<char>, secret: seq<char>, n: nat, c: char)
    requires n <= |guess| && n <= |secret|
    ensures ExactMatches(guess, secret, n, c) <= multiset(secret[..n])[c]
  {
    if n > 0 {
      ExactWithinSecret(guess, secret, n - 1, c);
      assert secret[..n] == secret[..n - 1] + [secret[n - 1]];
    }
  }

  /** Copies of `c` in the secret left over once the exact matches are consumed. */
  function Unmatched(guess: seq<char>, secret: seq<char>, c: char): nat
    requires |guess| == |secret|
  {
    ExactWithinSecret(guess, secret, |secret|, c);
    assert secret[..|secret|] == secret;
    multiset(secret)[c] - ExactMatches(guess, secret, |secret|, c)
  }

  /**
    The verdict at position i: Correct on an exact match; otherwise Present
    exactly when fewer earlier non-exact occurrences of the same letter
    exist than unmatched copies of it in the secret.
  */
  function ReferenceTag(guess: seq<char>, secret: seq<char>, i: nat): Tag
    requires |guess| == |secret| && i < |guess|
  {
    if guess[i] == secret[i] then Correct
    else if Misplaced(guess, secret, i, guess[i]) < Unmatched(guess, secret, guess[i]) then Present
    else Absent
  }

  /** The verdicts for a whole guess: one tag per letter. */
  function Score(guess: seq<char>, secret: seq<char>): (r: seq<Tag>)
    requires |guess| == |secret|
    ensures |r| == |guess|
    ensures forall i :: 0 <= i < |r| ==> (r[i] == Correct <==> guess[i] == secret[i])
  {
    seq(|guess|, i requires 0 <= i < |guess| => ReferenceTag(guess, secret, i))
  }

  /** The win test of evaluateGuess: every tag is Correct. */
  predicate AllCorrect(tags: seq<Tag>): (r: bool)
    ensures r <==> tags == seq(|tags|, _ => Correct)
    ensures r <==> Absent !in tags && Present !in tags
  {
    forall i :: 0 <= i < |tags| ==> tags[i] == Correct
  }

  /** The letter-count dictionary of a word: each letter of it mapped to its number of copies. */
  method CountLetters(word: seq<char>) returns (letterCount: map<char, int>)
    ensures forall c :: c in letterCount <==> c in word
    ensures forall c :: c in letterCount ==> letterCount[c] == multiset(word)[c]
  {
    letterCount := map[];
    for k := 0 to |word|
      invariant forall c :: c in letterCount <==> c in word[..k]
      invariant forall c :: c in letterCount ==> letterCount[c] == multiset(word[..k])[c]
    {
      assert word[..k + 1] == word[..k] + [word[k]];
      var letter := word[k];
      if letter in letterCount {
        letterCount := letterCount[letter := letterCount[letter] + 1];
      } else {
        letterCount := letterCount[letter := 1];
      }
    }
    assert word[..|word|] == word;
  }

  /**
    First pass: tag each exact match Correct and consume one copy of its
    letter from the dictionary.
  */
  method MarkExact(guess: seq<char>, secret: seq<char>, counts: map<char, int>)
    returns (result: seq<Tag>, letterCount: map<char, int>)
    requires |guess| == WordLength && |secret| == WordLength
    requires forall c :: c in counts <==> c in secret
    requires forall c :: c in counts ==> counts[c] == multiset(secret)[c]
    ensures |result| == WordLength
    ensures forall j :: 0 <= j < WordLength ==> result[j] == (if guess[j] == secret[j] then Correct else Absent)
    ensures forall c :: c in letterCount <==> c in secret
    ensures forall c :: c in letterCount ==> letterCount[c] == Unmatched(guess, secret, c)
  {
    result := [Absent, Absent, Absent, Absent, Absent];
    letterCount := counts;
    for i := 0 to WordLength
      invariant |result| == WordLength
      invariant forall j :: 0 <= j < i ==> result[j] == (if guess[j] == secret[j] then Correct else Absent)
      invariant forall j :: i <= j < WordLength ==> result[j] == Absent
      invariant forall c :: c in letterCount <==> c in secret
      invariant forall c :: c in letterCount ==>
        letterCount[c] == multiset(secret)[c] - ExactMatches(guess, secret, i, c)
    {
      if guess[i] == secret[i] {
        result := result[i := Correct];
        letterCount := letterCount[guess[i] := letterCount[guess[i]] - 1];
      }
    }
  }

  /** The dictionary once the second pass has handled the first i positions. */
  function Remaining(guess: seq<char>, secret: seq<char>, counts: map<char, int>, i: nat): (r: map<char, int>)
    requires i <= |guess| && i <= |secret|
    ensures r.Keys == counts.Keys
  {
    map c | c in counts :: counts[c] - Min(Misplaced(guess, secret, i, c), counts[c])
  }

  /** Before the second pass the dictionary is the one the first pass left. */
  lemma RemainingStart(guess: seq<char>, secret: seq<char>, counts: map<char, int>)
    requires forall c :: c in counts ==> counts[c] >= 0
    ensures Remaining(guess, secret, counts, 0) == counts
  {
  }

  /**
    The test of the second pass at position i gives the reference verdict,
    given the verdict of the first pass there and the dictionary as the
    earlier positions left it.
  */
  lemma PresentStep(guess: seq<char>, secret: seq<char>, counts: map<char, int>, i: nat, first: Tag)
    requires |guess| == |secret| && i < |guess|
    requires first == (if guess[i] == secret[i] then Correct else Absent)
    requires forall c :: c in counts <==> c in secret
    requires forall c :: c in counts ==> counts[c] == Unmatched(guess, secret, c)
    ensures var left, c := Remaining(guess, secret, counts, i), guess[i];
            Score(guess, secret)[i] == if first != Correct && c in left && left[c] > 0 then Present else first
  {
    var c := guess[i];
    if c !in secret {
      ExactWithinSecret(guess, secret, |secret|, c);
      assert secret[..|secret|] == secret;
      assert Unmatched(guess, secret, c) == 0;
    }
    assert Score(guess, secret)[i] == ReferenceTag(guess, secret, i);
  }

  /** One step of the second pass takes one copy exactly when it tags position i Present. */
  lemma RemainingStep(guess: seq<char>, secret: seq<char>, counts: map<char, int>, i: nat)
    requires i < |guess| && i < |secret|
    ensures var before, c := Remaining(guess, secret, counts, i), guess[i];
            Remaining(guess, secret, counts, i + 1)
            == if guess[i] != secret[i] && c in before && before[c] > 0 then before[c := before[c] - 1] else before
  {
    var before, after := Remaining(guess, secret, counts, i), Remaining(guess, secret, counts, i + 1);
    forall c | c in counts
      ensures after[c] == (if guess[i] != secret[i] && guess[i] in before && before[guess[i]] > 0
                           then before[guess[i] := before[guess[i]] - 1] else before)[c]
    {
      assert Misplaced(guess, secret, i + 1, c)
             == Misplaced(guess, secret, i, c) + (if guess[i] == c && secret[i] != c then 1 else 0);
    }
  }

  /**
    One step of the second pass, at position i: tag it Present if it is not
    Correct, its letter occurs in the secret and still has copies left,
    consuming one. The dictionary's keys are exactly the secret's letters,
    so the count is defined once the letter is known to occur in the secret.
  */
  method MarkPresentAt(guess: seq<char>, secret: seq<char>, counts: map<char, int>, i: nat,
                       result: seq<Tag>, letterCount: map<char, int>)
    returns (result': seq<Tag>, letterCount': map<char, int>)
    requires |guess| == |secret| == |result| && i < |guess|
    requires result[i] == (if guess[i] == secret[i] then Correct else Absent)
    requires forall c :: c in counts <==> c in secret
    requires forall c :: c in counts ==> counts[c] == Unmatched(guess, secret, c)
    requires letterCount == Remaining(guess, secret, counts, i)
    ensures result' == result[i := Score(guess, secret)[i]]
    ensures letterCount' == Remaining(guess, secret, counts, i + 1)
    ensures forall c :: c in letterCount' ==> 0 <= letterCount'[c]
  {
    PresentStep(guess, secret, counts, i, result[i]);
    RemainingStep(guess, secret, counts, i);
    var letter := guess[i];
    var tag := result[i];
    letterCount' := letterCount;
    if tag != Correct && letter in secret && letterCount[letter] > 0 {
      tag := Present;
      letterCount' := letterCount[letter := letterCount[letter] - 1];
    }
    result' := result[i := tag];
  }

  /**
    Second pass: from left to right, tag a position that is not Correct
    Present while its letter still has copies left, consuming one.
  */
  method MarkPresent(guess: seq<char>, secret: seq<char>, exact: seq<Tag>, counts: map<char, int>)
    returns (result: seq<Tag>)
    requires |guess| == WordLength && |secret| == WordLength && |exact| == WordLength
    requires forall j :: 0 <= j < WordLength ==> exact[j] == (if guess[j] == secret[j] then Correct else Absent)
    requires forall c :: c in counts <==> c in secret
    requires forall c :: c in counts ==> counts[c] == Unmatched(guess, secret, c)
    ensures result == Score(guess, secret)
  {
    ghost var spec := Score(guess, secret);
    result := exact;
    var letterCount := counts;
    RemainingStart(guess, secret, counts);
    for i := 0 to WordLength
      invariant |result| == WordLength
      invariant forall j :: 0 <= j < i ==> result[j] == spec[j]
      invariant forall j :: i <= j < WordLength ==> result[j] == exact[j]
      invariant letterCount == Remaining(guess, secret, counts, i)
    {
      result, letterCount := MarkPresentAt(guess, secret, counts, i, result, letterCount);
    }
    assert forall j :: 0 <= j < WordLength ==> result[j] == spec[j];
  }

  /**
    The source's algorithm: count the secret's letters into a dictionary,
    run the two passes, and report whether every tag is Correct.
  */
  method EvaluateGuess(guess: seq<char>, secret: seq<char>) returns (result: seq<Tag>, completed: bool)
    requires |guess| == WordLength && |secret| == WordLength
    ensures result == Score(guess, secret)
    ensures completed <==> guess == secret
  {
    var letterCount := CountLetters(secret);
    var exact;
    exact, letterCount := MarkExact(guess, secret, letterCount);
    result := MarkPresent(guess, secret, exact, letterCount);
    AllCorrectIffSecret(guess, secret);
    completed := AllCorrect(result);
  }

  // Properties of the verdicts.

  /** Number of positions j < n tagged Present whose guess letter is `c`. */
  function PresentCount(guess: seq<char>, tags: seq<Tag>, n: nat, c: char): nat
    requires n <= |guess| && n <= |tags|
  {
    if n == 0 then 0
    else PresentCount(guess, tags, n - 1, c) + (if tags[n - 1] == Present && guess[n - 1] == c then 1 else 0)
  }

  /** The guess letters at positions j < n that are tagged Correct or Present, in order. */
  function Marked(guess: seq<char>, tags: seq<Tag>, n: nat): seq<char>
    requires n <= |guess| && n <= |tags|
  {
    if n == 0 then []
    else Marked(guess, tags, n - 1) + (if tags[n - 1] != Absent then [guess[n - 1]] else [])
  }

  /** Every occurrence of `c` in a guess prefix is either an exact match or misplaced. */
  lemma {:induction false} ExactPlusMisplaced(guess: seq<char>, secret: seq<char>, n: nat, c: char)
    requires n <= |guess| && n <= |secret|
    ensures ExactMatches(guess, secret, n, c) + Misplaced(guess, secret, n, c) == multiset(guess[..n])[c]
  {
    if n > 0 {
      ExactPlusMisplaced(guess, secret, n - 1, c);
      assert guess[..n] == guess[..n - 1] + [guess[n - 1]];
    }
  }

  /** Misplaced occurrences only accumulate as the prefix grows. */
  lemma {:induction false} MisplacedMonotone(guess: seq<char>, secret: seq<char>, m: nat, n: nat, c: char)
    requires m <= n <= |guess| && n <= |secret|
    ensures Misplaced(guess, secret, m, c) <= Misplaced(guess, secret, n, c)
  {
    if m < n {
      MisplacedMonotone(guess, secret, m, n - 1, c);
    }
  }

  /**
    Among the first n positions, the letter `c` is tagged Present as often as
    it is misplaced there, but never more often than it has unmatched copies.
  */
  lemma {:induction false} PresentCountIsMin(guess: seq<char>, secret: seq<char>, n: nat, c: char)
    requires |guess| == |secret| && n <= |guess|
    ensures PresentCount(guess, Score(guess, secret), n, c)
            == Min(Misplaced(guess, secret, n, c), Unmatched(guess, secret, c))
  {
    if n > 0 {
      PresentCountIsMin(guess, secret, n - 1, c);
      var tags := Score(guess, secret);
      var before, left := Misplaced(guess, secret, n - 1, c), Unmatched(guess, secret, c);
      assert PresentCount(guess, tags, n, c)
             == PresentCount(guess, tags, n - 1, c) + (if tags[n - 1] == Present && guess[n - 1] == c then 1 else 0);
      if guess[n - 1] == c && secret[n - 1] != c {
        assert Misplaced(guess, secret, n, c) == before + 1;
        assert tags[n - 1] == (if before < left then Present else Absent);
      } else {
        assert Misplaced(guess, secret, n, c) == before;
        assert !(tags[n - 1] == Present && guess[n - 1] == c);
      }
    }
  }

  /** Number of positions j < n tagged Correct or Present whose guess letter is `c`. */
  function MarkedCount(guess: seq<char>, tags: seq<Tag>, n: nat, c: char): nat
    requires n <= |guess| && n <= |tags|
  {
    if n == 0 then 0
    else MarkedCount(guess, tags, n - 1, c) + (if tags[n - 1] != Absent && guess[n - 1] == c then 1 else 0)
  }

  /** `MarkedCount` counts the copies of `c` among the marked letters. */
  lemma {:induction false} MarkedCountIsMultiplicity(guess: seq<char>, tags: seq<Tag>, n: nat, c: char)
    requires n <= |guess| && n <= |tags|
    ensures multiset(Marked(guess, tags, n))[c] == MarkedCount(guess, tags, n, c)
  {
    if n > 0 {
      MarkedCountIsMultiplicity(guess, tags, n - 1, c);
      var prefix := Marked(guess, tags, n - 1);
      if tags[n - 1] == Absent {
        assert Marked(guess, tags, n) == prefix;
      } else {
        assert Marked(guess, tags, n) == prefix + [guess[n - 1]];
      }
    }
  }

  /**
    When the Correct tags sit exactly on the exact matches, the marked copies
    of `c` are its exact matches plus its Present tags.
  */
  lemma {:induction false} MarkedSplit(guess: seq<char>, secret: seq<char>, tags: seq<Tag>, n: nat, c: char)
    requires |guess| == |secret| == |tags| && n <= |guess|
    requires forall i :: 0 <= i < |tags| ==> (tags[i] == Correct <==> guess[i] == secret[i])
    ensures MarkedCount(guess, tags, n, c) == ExactMatches(guess, secret, n, c) + PresentCount(guess, tags, n, c)
  {
    if n > 0 {
      MarkedSplit(guess, secret, tags, n - 1, c);
      assert tags[n - 1] == Correct <==> guess[n - 1] == secret[n - 1];
    }
  }

  /**
    For every letter, the guess marks as many copies of it as it has in the
    guess and in the secret, whichever is fewer.
  */
  lemma MarkedCountIsMin(guess: seq<char>, secret: seq<char>, c: char)
    requires |guess| == |secret|
    ensures MarkedCount(guess, Score(guess, secret), |guess|, c) == Min(multiset(guess)[c], multiset(secret)[c])
  {
    var n := |guess|;
    MarkedSplit(guess, secret, Score(guess, secret), n, c);
    PresentCountIsMin(guess, secret, n, c);
    ExactPlusMisplaced(guess, secret, n, c);
    assert guess[..n] == guess;
  }

  /**
    The letters tagged Correct or Present form exactly the common part of
    the guess and the secret as multisets. In particular no letter is marked
    more often than the secret holds it.
  */
  lemma MarkedIsCommonLetters(guess: seq<char>, secret: seq<char>)
    requires |guess| == |secret|
    ensures multiset(Marked(guess, Score(guess, secret), |guess|)) == multiset(guess) * multiset(secret)
    ensures multiset(Marked(guess, Score(guess, secret), |guess|)) <= multiset(secret)
  {
    var tags := Score(guess, secret);
    forall c
      ensures multiset(Marked(guess, tags, |guess|))[c] == (multiset(guess) * multiset(secret))[c]
    {
      MarkedCountIsMultiplicity(guess, tags, |guess|, c);
      MarkedCountIsMin(guess, secret, c);
    }
  }

  /**
    The second pass as the source runs it: a position that is not an exact
    match is Present exactly when fewer Present tags have already been
    handed out, to its left, to the same letter than the secret has
    unmatched copies of it.
  */
  lemma PresentWhileCopiesRemain(guess: seq<char>, secret: seq<char>, i: nat)
    requires |guess| == |secret| && i < |guess|
    ensures Score(guess, secret)[i] == Present
            <==> guess[i] != secret[i]
                 && PresentCount(guess, Score(guess, secret), i, guess[i]) < Unmatched(guess, secret, guess[i])
  {
    PresentCountIsMin(guess, secret, i, guess[i]);
  }

  /** A Present letter occurs in the secret. */
  lemma PresentOccursInSecret(guess: seq<char>, secret: seq<char>, i: nat)
    requires |guess| == |secret| && i < |guess|
    requires Score(guess, secret)[i] == Present
    ensures guess[i] in secret && guess[i] != secret[i]
  {
    ExactWithinSecret(guess, secret, |secret|, guess[i]);
    assert secret[..|secret|] == secret;
  }

  /**
    Present tags go to the leftmost duplicates first: when a later copy of a
    letter is Present, every earlier copy of it that is not Correct is
    Present too.
  */
  lemma PresentLeftToRight(guess: seq<char>, secret: seq<char>, i: nat, j: nat)
    requires |guess| == |secret| && i < j < |guess|
    requires guess[i] == guess[j]
    requires Score(guess, secret)[i] != Correct && Score(guess, secret)[j] == Present
    ensures Score(guess, secret)[i] == Present
  {
    MisplacedMonotone(guess, secret, i + 1, j, guess[i]);
  }

  /** A guess scores all Correct exactly when it is the secret. */
  lemma AllCorrectIffSecret(guess: seq<char>, secret: seq<char>)
    requires |guess| == |secret|
    ensures AllCorrect(Score(guess, secret)) <==> guess == secret
  {
    if AllCorrect(Score(guess, secret)) {
      assert forall i :: 0 <= i < |guess| ==> guess[i] == secret[i];
    }
  }

  /** The unmatched copies for secret SPEED and guess ERASE. */
  lemma SpeedEraseUnmatched()
    ensures Unmatched("erase", "speed", 'e') == 2 && Unmatched("erase", "speed", 's') == 1
    ensures Unmatched("erase", "speed", 'r') == 0 && Unmatched("erase", "speed", 'a') == 0
  {
    var guess, secret := "erase", "speed";
    assert multiset(secret) == multiset{'s', 'p', 'e', 'e', 'd'} by {
      assert secret == ['s', 'p', 'e', 'e', 'd'];
    }
    forall c
      ensures ExactMatches(guess, secret, 5, c) == 0
    {
      assert ExactMatches(guess, secret, 1, c) == 0;
      assert ExactMatches(guess, secret, 2, c) == 0;
      assert ExactMatches(guess, secret, 3, c) == 0;
      assert ExactMatches(guess, secret, 4, c) == 0;
    }
  }

  /** Duplicate letters: secret SPEED, guess ERASE. No position matches exactly. */
  lemma ScoreSpeedErase()
    ensures Score("erase", "speed") == [Present, Absent, Absent, Present, Present]
  {
    var guess, secret := "erase", "speed";
    SpeedEraseUnmatched();
    assert Misplaced(guess, secret, 4, 'e') == 1;
    assert Misplaced(guess, secret, 3, 's') == 0;
  }

  /** The unmatched copies for secret HELLO and guess LOLLY. */
  lemma HelloLollyUnmatched()
    ensures Unmatched("lolly", "hello", 'l') == 0 && Unmatched("lolly", "hello", 'o') == 1
    ensures Unmatched("lolly", "hello", 'y') == 0
  {
    var guess, secret := "lolly", "hello";
    assert multiset(secret) == multiset{'h', 'e', 'l', 'l', 'o'} by {
      assert secret == ['h', 'e', 'l', 'l', 'o'];
    }
    assert ExactMatches(guess, secret, 1, 'l') == 0;
    assert ExactMatches(guess, secret, 2, 'l') == 0;
    assert ExactMatches(guess, secret, 3, 'l') == 1;
    assert ExactMatches(guess, secret, 4, 'l') == 2;
    assert ExactMatches(guess, secret, 5, 'l') == 2;
    assert ExactMatches(guess, secret, 2, 'o') == 0;
    assert ExactMatches(guess, secret, 5, 'o') == 0;
    assert ExactMatches(guess, secret, 5, 'y') == 0;
  }

  /** Duplicate letters: exact matches consume both copies of L, so the leading L is Absent. */
  lemma ScoreLollyHello()
    ensures Score("lolly", "hello") == [Absent, Present, Correct, Correct, Absent]
  {
    HelloLollyUnmatched();
  }
}
