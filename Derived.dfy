/** The values the game component derives on every render from its state
    (the hidden word and the list of pressed letters), the updater that the
    keyboard handler applies to the list, and what they promise. */
module Derived {
  import opened Seqs

  /** The 29 letters of the Turkish alphabet on the on-screen keyboard, in order. */
  const Alphabet: string := "ABCÇDEFGĞHIİJKLMNOÖPRSŞTUÜVYZ"

  /** Number of cat chips, one per life. */
  const Lives: nat := 9

  /** The most wrong guesses a won game may have had; one more loses. */
  const MaxWrong: nat := 7

  lemma AlphabetNoDup()
    ensures |Alphabet| == 29 && NoDup(Alphabet)
  {
  }

  // ---------------------------------------------------------------------
  // Wrong answers, won, lost

  /** The pressed letters that do not occur in the word, in pressing order
      (`guess.filter(letter => !currentWord.includes(letter))`). */
  function WrongLetters(word: string, guess: seq<char>): (r: seq<char>)
    ensures |r| <= |guess|
    ensures forall c :: c in r <==> c in guess && c !in word
    ensures NoDup(guess) ==> NoDup(r)
  {
    if guess == [] then []
    else
      var rest := WrongLetters(word, guess[1..]);
      if guess[0] in word then rest else [guess[0]] + rest
  }

  /** `wrongAnswerCount`: how many pressed letters miss the word. */
  function WrongAnswerCount(word: string, guess: seq<char>): (n: nat)
    ensures n <= |guess|
  {
    |WrongLetters(word, guess)|
  }

  /** Every character of the word has been pressed (repeats need one press). */
  predicate AllGuessed(word: string, guess: seq<char>)
    ensures AllGuessed(word, guess) <==> forall c :: c in word ==> c in guess
  {
    forall i :: 0 <= i < |word| ==> word[i] in guess
  }

  /** `isWon`: at most seven wrong answers and every letter of the word found. */
  predicate IsWon(word: string, guess: seq<char>)
    ensures IsWon(word, guess) ==> !IsLost(word, guess)
    ensures IsWon(word, guess) ==> forall c :: c in word ==> c in guess
  {
    WrongAnswerCount(word, guess) <= MaxWrong && AllGuessed(word, guess)
  }

  /** `isLost`: more than seven wrong answers. */
  predicate IsLost(word: string, guess: seq<char>)
    ensures IsLost(word, guess) ==> |guess| > MaxWrong
  {
    WrongAnswerCount(word, guess) > MaxWrong
  }

  /** `isGameOver`: the keyboard is disabled from here on. */
  predicate IsGameOver(word: string, guess: seq<char>)
    ensures !IsGameOver(word, guess) ==>
      WrongAnswerCount(word, guess) <= MaxWrong && exists i :: 0 <= i < |word| && word[i] !in guess
  {
    IsWon(word, guess) || IsLost(word, guess)
  }

  /** Won and lost never hold together; the game is over exactly when one does. */
  lemma WonLostExclusive(word: string, guess: seq<char>)
    ensures !(IsWon(word, guess) && IsLost(word, guess))
    ensures IsGameOver(word, guess) <==> (IsWon(word, guess) != IsLost(word, guess))
  {
  }

  /** With no duplicates, the wrong answer count is the number of distinct
      pressed letters that are not in the word. */
  lemma WrongCountDistinct(word: string, guess: seq<char>)
    requires NoDup(guess)
    ensures WrongAnswerCount(word, guess) == |set c | c in guess && c !in word|
  {
    var r := WrongLetters(word, guess);
    NoDupElems(r);
    assert Elems(r) == set c | c in guess && c !in word;
  }

  /** A word is won by pressing each of its distinct letters once and nothing
      else, and no won game has fewer presses than the word has distinct letters. */
  lemma WinNeedsDistinctLetters(word: string, guess: seq<char>)
    ensures (forall c :: c in guess <==> c in word) ==> IsWon(word, guess)
    ensures IsWon(word, guess) ==> |Elems(word)| <= |guess|
  {
    if forall c :: c in guess <==> c in word {
      WrongLettersAllHit(word, guess);
    }
    if IsWon(word, guess) {
      assert Elems(word) <= Elems(guess);
      SubsetCard(Elems(word), Elems(guess));
      ElemsBound(guess);
    }
  }

  // ---------------------------------------------------------------------
  // Pressing a key

  /** The updater `handleKeyboard` hands to `setGuess`: append the letter
      unless it was pressed before. */
  function AddGuess(guess: seq<char>, letter: char): (r: seq<char>)
    ensures forall c :: c in r <==> c in guess || c == letter
    ensures |guess| <= |r| <= |guess| + 1 && r[..|guess|] == guess
    ensures letter in guess <==> r == guess
  {
    if letter in guess then guess else guess + [letter]
  }

  /** Pressing the same key twice is the same as pressing it once. */
  lemma AddGuessIdempotent(guess: seq<char>, letter: char)
    ensures AddGuess(AddGuess(guess, letter), letter) == AddGuess(guess, letter)
  {
  }

  /** Pressing keeps the guess list free of duplicates. */
  lemma AddGuessNoDup(guess: seq<char>, letter: char)
    requires NoDup(guess)
    ensures NoDup(AddGuess(guess, letter))
  {
  }

  lemma {:induction false} WrongLettersAppend(word: string, guess: seq<char>, letter: char)
    ensures WrongLetters(word, guess + [letter])
         == WrongLetters(word, guess) + (if letter in word then [] else [letter])
  {
    if guess != [] {
      assert (guess + [letter])[1..] == guess[1..] + [letter];
      WrongLettersAppend(word, guess[1..], letter);
    }
  }

  /** A press raises the wrong answer count by one exactly when the letter is
      new and not in the word; otherwise the count stays. */
  lemma AddGuessWrongCount(word: string, guess: seq<char>, letter: char)
    ensures WrongAnswerCount(word, AddGuess(guess, letter))
         == WrongAnswerCount(word, guess) + (if letter in guess || letter in word then 0 else 1)
  {
    if letter !in guess {
      WrongLettersAppend(word, guess, letter);
    }
  }

  /** Pressing a letter again changes none of the derived flags. */
  lemma RepeatPressChangesNothing(word: string, guess: seq<char>, letter: char)
    requires letter in guess
    ensures WrongAnswerCount(word, AddGuess(guess, letter)) == WrongAnswerCount(word, guess)
    ensures IsWon(word, AddGuess(guess, letter)) == IsWon(word, guess)
    ensures IsLost(word, AddGuess(guess, letter)) == IsLost(word, guess)
  {
  }

  // ---------------------------------------------------------------------
  // A sequence of key presses on the keyboard that is disabled at game over

  /** The guess list after clicking `keys` in order, a click on a disabled
      key (the game being over) doing nothing. */
  function Play(word: string, guess: seq<char>, keys: seq<char>): (r: seq<char>)
    ensures forall c :: c in r ==> c in guess || c in keys
    ensures forall c :: c in guess ==> c in r
    decreases |keys|
  {
    if keys == [] then guess
    else
      var next := if IsGameOver(word, guess) then guess else AddGuess(guess, keys[0]);
      Play(word, next, keys[1..])
  }

  /** Clicks only extend the guess list, by at most one letter per click. */
  lemma {:induction false} PlayExtends(word: string, guess: seq<char>, keys: seq<char>)
    ensures |guess| <= |Play(word, guess, keys)| <= |guess| + |keys|
    ensures Play(word, guess, keys)[..|guess|] == guess
    decreases |keys|
  {
    if keys != [] {
      var next := if IsGameOver(word, guess) then guess else AddGuess(guess, keys[0]);
      PlayExtends(word, next, keys[1..]);
      var r := Play(word, next, keys[1..]);
      assert r[..|guess|] == r[..|next|][..|guess|];
    }
  }

  /** The wrong answer count never drops under clicks, and each click adds at
      most one wrong answer. */
  lemma {:induction false} PlayWrongMonotone(word: string, guess: seq<char>, keys: seq<char>)
    ensures WrongAnswerCount(word, guess) <= WrongAnswerCount(word, Play(word, guess, keys))
                                         <= WrongAnswerCount(word, guess) + |keys|
    decreases |keys|
  {
    if keys != [] {
      var next := if IsGameOver(word, guess) then guess else AddGuess(guess, keys[0]);
      AddGuessWrongCount(word, guess, keys[0]);
      PlayWrongMonotone(word, next, keys[1..]);
    }
  }

  /** From a state with at most eight wrong answers, no sequence of clicks
      gets past eight: the disabled keyboard stops the game at the first loss. */
  lemma {:induction false} PlayWrongBound(word: string, guess: seq<char>, keys: seq<char>)
    requires WrongAnswerCount(word, guess) <= MaxWrong + 1
    ensures WrongAnswerCount(word, Play(word, guess, keys)) <= MaxWrong + 1
    decreases |keys|
  {
    if keys != [] {
      var next := if IsGameOver(word, guess) then guess else AddGuess(guess, keys[0]);
      AddGuessWrongCount(word, guess, keys[0]);
      PlayWrongBound(word, next, keys[1..]);
    }
  }

  /** Clicks keep the guess list free of duplicates. */
  lemma {:induction false} PlayNoDup(word: string, guess: seq<char>, keys: seq<char>)
    requires NoDup(guess)
    ensures NoDup(Play(word, guess, keys))
    decreases |keys|
  {
    if keys != [] {
      var next := if IsGameOver(word, guess) then guess else AddGuess(guess, keys[0]);
      AddGuessNoDup(guess, keys[0]);
      PlayNoDup(word, next, keys[1..]);
    }
  }

  /** Once the game is over, further clicks change nothing. */
  lemma {:induction false} PlayAfterGameOver(word: string, guess: seq<char>, keys: seq<char>)
    requires IsGameOver(word, guess)
    ensures Play(word, guess, keys) == guess
    decreases |keys|
  {
    if keys != [] {
      PlayAfterGameOver(word, guess, keys[1..]);
    }
  }

  /** Clicks take effect: unless the game has ended, every clicked letter is
      in the guess list afterwards. */
  lemma {:induction false} PlayRegisters(word: string, guess: seq<char>, keys: seq<char>)
    ensures var r := Play(word, guess, keys);
      IsGameOver(word, r) || forall c :: c in keys ==> c in r
    decreases |keys|
  {
    if keys != [] {
      if IsGameOver(word, guess) {
        PlayAfterGameOver(word, guess, keys[1..]);
      } else {
        var next := AddGuess(guess, keys[0]);
        assert keys[0] in next;
        PlayRegisters(word, next, keys[1..]);
      }
    }
  }

  /** In every game played from a fresh start, a loss leaves the cat exactly
      one of its nine lives, and a win leaves it between two and nine. */
  lemma LivesLeft(word: string, keys: seq<char>)
    ensures var g := Play(word, [], keys);
      (IsLost(word, g) ==> Lives - WrongAnswerCount(word, g) == 1) &&
      (IsWon(word, g) ==> 2 <= Lives - WrongAnswerCount(word, g) <= Lives)
  {
    PlayWrongBound(word, [], keys);
  }

  // ---------------------------------------------------------------------
  // The word as shown

  /** One position of the word on screen: its letter, whether the letter is
      shown, and whether it is marked as missed. */
  datatype Slot = Slot(letter: char, revealed: bool, missed: bool)

  /** The word position by position: a letter is shown when it was guessed or
      the game is lost, and marked missed when lost without being guessed. */
  function Reveal(word: string, guess: seq<char>): (r: seq<Slot>)
    ensures |r| == |word|
    ensures forall i :: 0 <= i < |r| ==> r[i].letter == word[i]
    ensures forall i :: 0 <= i < |r| ==>
      (r[i].revealed <==> word[i] in guess || IsLost(word, guess))
    ensures forall i :: 0 <= i < |r| ==>
      (r[i].missed <==> IsLost(word, guess) && word[i] !in guess)
  {
    var lost := IsLost(word, guess);
    seq(|word|, i requires 0 <= i < |word| =>
      Slot(word[i], word[i] in guess || lost, lost && word[i] !in guess))
  }

  /** A missed letter is always shown, and no letter is missed in a won game. */
  lemma RevealMissedShown(word: string, guess: seq<char>, i: nat)
    requires i < |word|
    ensures Reveal(word, guess)[i].missed ==> Reveal(word, guess)[i].revealed
    ensures IsWon(word, guess) ==> !Reveal(word, guess)[i].missed
  {
  }

  /** The whole word is on screen exactly when the game is over. */
  lemma RevealAllIffGameOver(word: string, guess: seq<char>)
    ensures (forall i :: 0 <= i < |word| ==> Reveal(word, guess)[i].revealed)
        <==> IsGameOver(word, guess)
  {
    var r := Reveal(word, guess);
    if forall i :: 0 <= i < |word| ==> r[i].revealed {
      if !IsLost(word, guess) {
        assert AllGuessed(word, guess) by {
          forall i | 0 <= i < |word| ensures word[i] in guess {
            assert r[i].revealed;
          }
        }
      }
    }
  }

  // ---------------------------------------------------------------------
  // The keyboard

  /** One key: its letter, whether it is coloured correct or wrong, and
      whether it is disabled. */
  datatype Key = Key(letter: char, correct: bool, wrong: bool, disabled: bool)

  /** The key for `letter`: correct when pressed and in the word, wrong when
      pressed and not in the word, disabled once the game is over. */
  function KeyFor(word: string, guess: seq<char>, letter: char): (k: Key)
    ensures k.letter == letter && k.disabled == IsGameOver(word, guess)
    ensures !(k.correct && k.wrong)
    ensures k.correct || k.wrong <==> letter in guess
    ensures k.correct ==> letter in word
    ensures k.wrong ==> letter !in word
  {
    var isGuessed := letter in guess;
    Key(letter, isGuessed && letter in word, isGuessed && letter !in word, IsGameOver(word, guess))
  }

  /** The keys for `letters`, in order. */
  function Keys(word: string, guess: seq<char>, letters: string): (r: seq<Key>)
    ensures |r| == |letters|
    ensures forall i :: 0 <= i < |r| ==> r[i] == KeyFor(word, guess, letters[i])
  {
    seq(|letters|, i requires 0 <= i < |letters| => KeyFor(word, guess, letters[i]))
  }

  /** The on-screen keyboard: one key per letter of the alphabet. */
  function Keyboard(word: string, guess: seq<char>): (r: seq<Key>)
    ensures |r| == |Alphabet|
    ensures forall i :: 0 <= i < |r| ==>
      r[i].letter == Alphabet[i] && r[i].disabled == IsGameOver(word, guess) &&
      (r[i].wrong <==> Alphabet[i] in guess && Alphabet[i] !in word)
  {
    Keys(word, guess, Alphabet)
  }

  /** How many keys are coloured wrong. */
  function CountWrongKeys(keys: seq<Key>): (n: nat)
    ensures n <= |keys|
    ensures n == 0 <==> forall i :: 0 <= i < |keys| ==> !keys[i].wrong
  {
    if keys == [] then 0 else (if keys[0].wrong then 1 else 0) + CountWrongKeys(keys[1..])
  }

  /** The letters among `letters` that were pressed and are not in the word. */
  function MissedAmong(word: string, guess: seq<char>, letters: string): set<char>
  {
    set c | c in letters && c in guess && c !in word
  }

  lemma MissedAmongSplit(word: string, guess: seq<char>, letters: string)
    requires letters != [] && letters[0] !in letters[1..]
    ensures |MissedAmong(word, guess, letters)|
         == (if letters[0] in guess && letters[0] !in word then 1 else 0)
            + |MissedAmong(word, guess, letters[1..])|
  {
    var rest := MissedAmong(word, guess, letters[1..]);
    var here: set<char> := if letters[0] in guess && letters[0] !in word then {letters[0]} else {};
    assert MissedAmong(word, guess, letters) == here + rest;
    assert here !! rest;
  }

  lemma {:induction false} CountWrongKeysDistinct(word: string, guess: seq<char>, letters: string)
    requires NoDup(letters)
    ensures CountWrongKeys(Keys(word, guess, letters)) == |MissedAmong(word, guess, letters)|
  {
    var ks := Keys(word, guess, letters);
    if letters != [] {
      var tail := letters[1..];
      NoDupTail(letters);
      assert ks[1..] == Keys(word, guess, tail);
      CountWrongKeysDistinct(word, guess, tail);
      MissedAmongSplit(word, guess, letters);
    }
  }

  /** When every pressed letter is a key and none was pressed twice, the
      keyboard shows exactly `wrongAnswerCount` wrong keys. */
  lemma WrongKeysMatchCount(word: string, guess: seq<char>)
    requires NoDup(guess)
    requires forall c :: c in guess ==> c in Alphabet
    ensures CountWrongKeys(Keyboard(word, guess)) == WrongAnswerCount(word, guess)
  {
    AlphabetNoDup();
    CountWrongKeysDistinct(word, guess, Alphabet);
    WrongCountDistinct(word, guess);
    assert MissedAmong(word, guess, Alphabet) == set c | c in guess && c !in word;
  }

  // ---------------------------------------------------------------------
  // The cat chips

  /** The nine chips, chip `i` marked lost when `i` is below the wrong answer count. */
  function Chips(wrong: nat): (r: seq<bool>)
    ensures |r| == Lives
    ensures forall i :: 0 <= i < Lives ==> (r[i] <==> i < wrong)
  {
    seq(Lives, i => i < wrong)
  }

  /** How many entries of `s` are true. */
  function CountTrue(s: seq<bool>): (n: nat)
    ensures n <= |s|
    ensures n == 0 <==> forall i :: 0 <= i < |s| ==> !s[i]
  {
    if s == [] then 0 else CountTrue(s[..|s| - 1]) + (if s[|s| - 1] then 1 else 0)
  }

  lemma {:induction false} CountTruePrefix(n: nat, wrong: nat)
    ensures CountTrue(seq(n, i => i < wrong)) == if wrong < n then wrong else n
  {
    if n > 0 {
      var s := seq(n, i => i < wrong);
      assert s[..n - 1] == seq(n - 1, i => i < wrong);
      CountTruePrefix(n - 1, wrong);
    }
  }

  /** The lost chips are the first `wrongAnswerCount` chips (at most nine), and
      in any game played from a fresh start at least one chip is never lost. */
  lemma ChipsLost(word: string, keys: seq<char>, wrong: nat)
    ensures CountTrue(Chips(wrong)) == if wrong < Lives then wrong else Lives
    ensures wrong == WrongAnswerCount(word, Play(word, [], keys)) ==>
      CountTrue(Chips(wrong)) == wrong && !Chips(wrong)[Lives - 1]
  {
    CountTruePrefix(Lives, wrong);
    PlayWrongBound(word, [], keys);
  }

  // ---------------------------------------------------------------------
  // A fresh game

  /** Right after a new word is taken, nothing is wrong, nothing is lost and
      nothing is shown; only an empty word would count as won at once. */
  lemma FreshGame(word: string)
    ensures WrongAnswerCount(word, []) == 0 && !IsLost(word, [])
    ensures IsWon(word, []) <==> word == []
    ensures forall i :: 0 <= i < |word| ==> !Reveal(word, [])[i].revealed
    ensures forall k :: k in Keyboard(word, []) ==> !k.correct && !k.wrong
  {
    if word != [] {
      assert !AllGuessed(word, []) by { assert word[0] !in []; }
    }
  }

  // ---------------------------------------------------------------------
  // Two games played out

  /** A guess list none of whose letters is in the word is all wrong. */
  lemma {:induction false} WrongLettersAllMiss(word: string, guess: seq<char>)
    requires forall i :: 0 <= i < |guess| ==> guess[i] !in word
    ensures WrongLetters(word, guess) == guess
  {
    if guess != [] { WrongLettersAllMiss(word, guess[1..]); }
  }
  /** A guess list all of whose letters are in the word has no wrong answer. */
  lemma {:induction false} WrongLettersAllHit(word: string, guess: seq<char>)
    requires forall i :: 0 <= i < |guess| ==> guess[i] in word
    ensures WrongLetters(word, guess) == []
  {
    if guess != [] { WrongLettersAllHit(word, guess[1..]); }
  }
  /** Pressing K, E, D, İ for the word KEDİ wins with no wrong answer, and
      the game is still open before the last press. */
  lemma WinKedi()
    ensures IsWon("KEDİ", "KEDİ") && !IsLost("KEDİ", "KEDİ")
    ensures WrongAnswerCount("KEDİ", "KED") == 0 && !IsGameOver("KEDİ", "KED")
  {
    var w := "KEDİ";
    WrongLettersAllHit(w, w);
    WrongLettersAllHit(w, "KED");
    assert w[3] !in "KED";
  }
  /** Eight letters missing from KEDİ lose the game. */
  lemma LoseKedi()
    ensures WrongAnswerCount("KEDİ", "ABCFGHJL") == 8
    ensures IsLost("KEDİ", "ABCFGHJL") && !IsWon("KEDİ", "ABCFGHJL")
  {
    var w, g := "KEDİ", "ABCFGHJL";
    forall i | 0 <= i < |g| ensures g[i] !in w {
    }
    WrongLettersAllMiss(w, g);
  }

  /** Seven letters missing from KEDİ leave the game open. */
  lemma OpenAfterSevenMisses()
    ensures WrongAnswerCount("KEDİ", "ABCFGHJ") == 7 && !IsGameOver("KEDİ", "ABCFGHJ")
  {
    var w, g := "KEDİ", "ABCFGHJ";
    forall i | 0 <= i < |g| ensures g[i] !in w {
    }
    WrongLettersAllMiss(w, g);
    assert w[0] !in g;
  }
}
