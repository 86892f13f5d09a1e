/** The game component's state and the three event handlers that change it.
    The random word source is outside the model: a new word is passed in. */
module GameState {
  import opened Seqs
  import opened Derived

  class Game {
    /** The hidden word. */
    var currentWord: string
    /** The pressed letters, in pressing order. */
    var guess: seq<char>
    /** Whether a won game shows confetti. */
    var confettiOn: bool

    /** What every reachable state satisfies: each pressed letter is a key of
        the keyboard and was pressed once, and the wrong answers stop at the
        first loss. */
    ghost predicate Valid()
      reads this
      ensures Valid() ==> |guess| <= |Alphabet|
    {
      if NoDup(guess) && (forall c :: c in guess ==> c in Alphabet) then
        NoDupWithin(guess, Alphabet);
        WrongAnswerCount(currentWord, guess) <= MaxWrong + 1
      else
        false
    }

    /** The component's first render: a word from the word source, no
        guesses, confetti on. */
    constructor (word: string)
      ensures Valid()
      ensures currentWord == word && guess == [] && confettiOn
    {
      currentWord := word;
      guess := [];
      confettiOn := true;
    }

    /** `handleKeyboard`: a click on a key of the keyboard, which is enabled
        only while the game is not over. */
    method HandleKeyboard(letter: char)
      requires Valid()
      requires letter in Alphabet
      requires !IsGameOver(currentWord, guess)
      modifies this
      ensures Valid()
      ensures guess == AddGuess(old(guess), letter)
      ensures currentWord == old(currentWord) && confettiOn == old(confettiOn)
      ensures WrongAnswerCount(currentWord, guess)
           == WrongAnswerCount(currentWord, old(guess))
              + (if letter in old(guess) || letter in currentWord then 0 else 1)
      ensures |guess| <= |Alphabet|
    {
      AddGuessWrongCount(currentWord, guess, letter);
      AddGuessNoDup(guess, letter);
      guess := AddGuess(guess, letter);
      assert Valid();
    }

    /** `newGame`: forget the guesses and take the next word; the confetti
        setting is kept. */
    method NewGame(word: string)
      modifies this
      ensures Valid()
      ensures guess == [] && currentWord == word && confettiOn == old(confettiOn)
      ensures WrongAnswerCount(currentWord, guess) == 0 && !IsLost(currentWord, guess)
    {
      guess := [];
      currentWord := word;
    }

    /** `changeConfetti`: flip the confetti setting and nothing else. */
    method ChangeConfetti()
      requires Valid()
      modifies this
      ensures Valid()
      ensures confettiOn == !old(confettiOn)
      ensures guess == old(guess) && currentWord == old(currentWord)
    {
      confettiOn := !confettiOn;
    }
  }

  /** Flipping the confetti setting twice restores it and leaves the game as it was. */
  method ChangeConfettiTwice(g: Game)
    requires g.Valid()
    modifies g
    ensures g.Valid()
    ensures g.confettiOn == old(g.confettiOn)
    ensures g.guess == old(g.guess) && g.currentWord == old(g.currentWord)
  {
    g.ChangeConfetti();
    g.ChangeConfetti();
  }
}
