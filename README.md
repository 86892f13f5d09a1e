# Miyavmaca: a model of the hangman game state

Miyavmaca is a browser word-guessing game (hangman with a cat and nine lives,
in Turkish). Its single component `App` keeps three pieces of state: the hidden
word `currentWord`, the list `guess` of pressed letters, and the `confettiOn`
setting. On every render it derives the wrong answer count, the won, lost and
game-over flags, the word as shown, the colouring of the 29 keys of the
Turkish alphabet and the nine cat chips. Three handlers change the state:
a key click, "new word" and the confetti switch.

This project models that state machine in Dafny:

- `Seqs.dfy` (module `Seqs`): duplicate-free sequences and their number of
  distinct elements.
- `Derived.dfy` (module `Derived`): the derived values as functions of
  `(word, guess)`, the updater the key handler applies to `guess`, the
  guess list after a sequence of clicks on a keyboard that is disabled at game
  over (`Play`), and lemmas about all of them.
- `Game.dfy` (module `GameState`): class `Game` with the three state fields
  and the handlers as methods. `Game.Valid()` is the invariant of every
  reachable state: no letter pressed twice, every pressed letter a key, at most
  eight wrong answers.

## Modelling decisions

What `src/App.jsx` does, and how the model reads it:

- `guess` is an array in pressing order that never holds a letter twice. The
  model keeps it as a `seq<char>` in the same order, not as a set.
- The handler itself does not ignore clicks after game over. Only the
  `disabled` attribute of the keys stops them. `Game.HandleKeyboard` therefore
  requires that the game is not over. In `Derived.Play`, a click on a disabled
  key changes nothing.
- Nothing in `App` rejects an empty word. With one, `isWon` holds at once because
  `every` over no letters is true. `Derived.FreshGame` states this.
- The "new word" and confetti buttons appear only at game over. The handlers
  work the same in any state. So `NewGame` requires nothing, and
  `ChangeConfetti` requires only the reachable-state invariant, which it keeps.

## Model

| member | source | states |
|---|---|---|
| `Derived.AlphabetNoDup` | src/App.jsx:28 | the keyboard alphabet has 29 letters, none repeated |
| `Derived.WrongLetters` | src/App.jsx:22 | the wrong letters are exactly the pressed letters not in the word; there are no more of them than presses; they have no duplicates if the guesses have none |
| `Derived.WrongAnswerCount` | src/App.jsx:22 | the wrong answer count never exceeds the number of presses |
| `Derived.WrongCountDistinct` | src/App.jsx:22 | without duplicate presses, the count is the number of distinct pressed letters missing from the word |
| `Derived.WrongLettersAllMiss` | src/App.jsx:22 | if no pressed letter is in the word, every press is a wrong answer |
| `Derived.WrongLettersAllHit` | src/App.jsx:22 | if every pressed letter is in the word, there is no wrong answer |
| `Derived.AllGuessed` | src/App.jsx:23 | every position of the word holds a pressed letter exactly when every letter occurring in the word was pressed, so a repeated letter needs one press |
| `Derived.IsWon` | src/App.jsx:23 | a won game is not lost, and every letter of the word was pressed |
| `Derived.IsLost` | src/App.jsx:24 | a lost game has had more than seven presses |
| `Derived.IsGameOver` | src/App.jsx:25 | while the game is open, there are at most seven wrong answers and some position of the word is still unguessed |
| `Derived.WonLostExclusive` | src/App.jsx:23-25 | won and lost never hold together; the game is over exactly when one of them holds |
| `Derived.WinNeedsDistinctLetters` | src/App.jsx:23 | pressing exactly the word's letters wins, however often a letter repeats in the word; a won game has at least as many presses as the word has distinct letters |
| `Derived.AddGuess` | src/App.jsx:110-113 | after a press, the guesses are the old ones plus the letter; the old list is an unchanged prefix; the list grows by at most one; it is unchanged exactly when the letter was already pressed |
| `Derived.AddGuessIdempotent` | src/App.jsx:110-113 | pressing the same letter twice equals pressing it once |
| `Derived.AddGuessNoDup` | src/App.jsx:110-113 | a press never introduces a duplicate |
| `Derived.WrongLettersAppend` | src/App.jsx:22 | appending a letter appends it to the wrong letters exactly when it is not in the word |
| `Derived.AddGuessWrongCount` | src/App.jsx:110-113 | a press raises the wrong answer count by one if the letter is new and not in the word; otherwise the count stays |
| `Derived.RepeatPressChangesNothing` | src/App.jsx:110-113 | pressing a letter again leaves the wrong answer count, won and lost unchanged |
| `Derived.Play` | src/App.jsx:100-113 | after a run of clicks on a keyboard disabled at game over, every guessed letter was guessed before or clicked, and no earlier guess is lost |
| `Derived.PlayExtends` | src/App.jsx:110-113 | clicks only extend the guess list, keeping the earlier entries in order, by at most one letter per click |
| `Derived.PlayWrongMonotone` | src/App.jsx:100-113 | under any clicks, the wrong answer count never decreases and rises by at most one per click |
| `Derived.PlayWrongBound` | src/App.jsx:100-103 | with the keyboard disabled at game over, no sequence of clicks takes the wrong answer count past eight |
| `Derived.PlayNoDup` | src/App.jsx:110-113 | any sequence of clicks leaves the guess list duplicate-free |
| `Derived.PlayAfterGameOver` | src/App.jsx:100-103 | once the game is over, further clicks change nothing |
| `Derived.PlayRegisters` | src/App.jsx:100-113 | every click on an enabled key is recorded: after a run of clicks, either the game is over or every clicked letter is in the guess list |
| `Derived.LivesLeft` | src/App.jsx:45-60 | in every game from a fresh start, a loss leaves exactly one of the nine lives ("Tek bir canı kaldı"); a win leaves between two and nine |
| `Derived.Reveal` | src/App.jsx:77-87 | one slot per word position, holding that position's letter; a slot is shown exactly when its letter was pressed or the game is lost; it is marked missed exactly when the game is lost and the letter was not pressed |
| `Derived.RevealMissedShown` | src/App.jsx:78-79 | a missed slot is always shown; no slot is missed in a won game |
| `Derived.RevealAllIffGameOver` | src/App.jsx:78 | the whole word is shown exactly when the game is over |
| `Derived.KeyFor` | src/App.jsx:90-106 | a key is never both correct and wrong; it is one of them exactly when its letter was pressed; correct keys are in the word and wrong ones are not; keys are disabled exactly at game over |
| `Derived.Keys` | src/App.jsx:90 | one key per letter, in alphabet order |
| `Derived.Keyboard` | src/App.jsx:90-100 | one key per alphabet letter, in order; every key is disabled exactly at game over; a key is wrong exactly when its letter was pressed and is not in the word |
| `Derived.CountWrongKeys` | src/App.jsx:93 | the number of wrong-coloured keys is at most the number of keys, and is zero exactly when no key is wrong |
| `Derived.CountWrongKeysDistinct` | src/App.jsx:91-93 | over distinct letters, the number of wrong-coloured keys equals the number of distinct letters that were pressed and are not in the word |
| `Derived.MissedAmongSplit` | src/App.jsx:93 | a letter list splits its pressed-but-not-in-the-word letters into its head, counted once, and those of its tail, when the head does not repeat |
| `Derived.WrongKeysMatchCount` | src/App.jsx:91-93 | in a reachable state, the keyboard shows exactly `wrongAnswerCount` wrong keys |
| `Derived.Chips` | src/App.jsx:64-65 | nine chips; chip `i` is marked lost exactly when `i` is below the wrong answer count |
| `Derived.CountTrue` | src/App.jsx:65 | the number of lost chips is at most the number of chips, and is zero exactly when no chip is lost |
| `Derived.CountTruePrefix` | src/App.jsx:64-65 | marking the positions below `k` among `n` marks `min(k, n)` of them |
| `Derived.ChipsLost` | src/App.jsx:64-65 | chip `i` is lost exactly when `i < wrongAnswerCount`, capped at nine; in any game from a fresh start, the lost chips equal the wrong answer count and the last chip is never lost |
| `Derived.FreshGame` | src/App.jsx:116-119 | with no guesses, nothing is wrong or lost, no slot is shown and no key is coloured; only an empty word counts as won at once |
| `Derived.WinKedi` | src/App.jsx:22-25 | for the word KEDİ, pressing K, E, D, İ wins with no wrong answer; after K, E, D the game is still open |
| `Derived.LoseKedi` | src/App.jsx:22-25 | for the word KEDİ, eight letters outside it lose with eight wrong answers and do not win |
| `Derived.OpenAfterSevenMisses` | src/App.jsx:22-25 | for the word KEDİ, seven letters outside it give seven wrong answers and the game is still open |
| `GameState.Game.Valid` | src/App.jsx:14-16 | the invariant of every reachable state: no letter pressed twice, every pressed letter a key, at most eight wrong answers; it implies that at most 29 letters are pressed |
| `GameState.Game.constructor` | src/App.jsx:14-16 | the first state holds the given word, no guesses and confetti on; it satisfies the invariant |
| `GameState.Game.HandleKeyboard` | src/App.jsx:110-113 | a key click on an enabled keyboard applies `AddGuess`; the word and the confetti setting are unchanged; the wrong answer count rises only for a new letter outside the word; the invariant is kept, so at most 29 letters are ever pressed |
| `GameState.Game.NewGame` | src/App.jsx:116-119 | empties the guesses and takes the given word, so nothing is wrong or lost; the confetti setting is kept |
| `GameState.Game.ChangeConfetti` | src/App.jsx:122-124 | flips the confetti setting, changes nothing else and keeps the invariant |
| `GameState.ChangeConfettiTwice` | src/App.jsx:122-124 | flipping twice restores the setting and the rest of the state, and keeps the invariant |

## Left out

- Random word choice (`getRandomWord` in `src/utils.js`): it is random and its file is not part of this model. The new word is a parameter of the constructor and of `NewGame`.
- Rendering: JSX, `clsx` class names, images, the header and status texts, and the GitHub link. They matter only through the derived values modelled above. The rule that confetti is drawn when `isWon && confettiOn` is rendering and is not modelled.
- The `useEffect` that scrolls the chips into view at game over, and the confetti animation. These are DOM side effects; no data flows back into the state.
- Unicode and UTF-16: the model reads a word as a sequence of Unicode characters. `split("")` and `includes` in `src/App.jsx` (lines 22-23 and 77) work on UTF-16 code units. The two readings agree on the 29 keyboard letters, all in the Basic Multilingual Plane. A word character outside that plane would be one slot in `Derived.Reveal` but two spans on screen.
- Derived.Play: its own contract only says that no letter is invented and none is lost. That a click on an enabled key is recorded is stated by `Derived.PlayRegisters`, and that a click after game over changes nothing by `Derived.PlayAfterGameOver`.
- `console.log` of the word: debugging output.
- A score counter and a hint mechanic. Neither appears in `src/App.jsx`.
- Concurrency and React's batching of state updates. Each handler runs as one atomic step. The functional updater form of `setGuess` makes each click one `AddGuess` step.
