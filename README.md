# WordGarden game engine in Dafny

WordGarden is a small hangman-style iOS game. The player guesses one letter at
a time to uncover a hidden word. Each wrong letter wilts the flower and costs one of eight
guesses. Guessing every letter wins the word. Running out of guesses misses it. After the
last word of the list, the game offers a restart from the first word.

This project models the game screen's state machine in `WordGarden/ContentView.swift`:
- its state fields;
- the `.onAppear` initialiser;
- the text field's `.onChange` sanitiser;
- the submit guards;
- `guessALetter`;
- `updateGameplay`;
- the play-again button.

It proves what those state changes promise.

- `text.dfy` (module `Text`) holds the string helpers. These are decimal rendering of the
  counters, Swift's `String.contains` as substring containment, and the input sanitiser
  (`trimmingCharacters(in: .letters.inverted)`, last character, `uppercased()`).
- `mask.dfy` (module `Mask`) holds the masked word: one cell per letter, an underscore until
  the letter is guessed, cells joined by single spaces.
- `gameplay.dfy` (module `Gameplay`) holds the screen state as a value `Game`, with one
  function per state change. It also holds the invariant `Inv` that every user action (`Gameplay.Step`) keeps,
  lemmas for each behaviour the screen promises, and runs of arbitrary user actions.
- `content_view.dfy` (module `WordGarden`) holds the class `ContentView`. Its fields are the
  `@State` fields, and its methods update them in place. Each method is proved to leave the
  fields exactly as the matching `Gameplay` function says. The public handlers are also
  proved to keep `Inv`.

The guess controls exist only while `playAgainHidden` is true, and the play-again button only
while it is false (`ContentView.swift:61`). So `OnChange` and `Submit` require
`playAgainHidden`, and `PlayAgain` requires its negation. `Gameplay.Step` ignores an action
whose control is not on screen.

The word list is a constructor parameter. It may be any non-empty list of non-empty words of
upper-case ASCII letters. `Gameplay.DefaultWords` is the list the app ships with
(`["SWIFT", "CAT", "DOG"]`), and `Gameplay.DefaultWordsWellFormed` shows it qualifies.

## Model

| member | source | states |
|---|---|---|
| Text.NatToString | WordGarden/ContentView.swift:156 | the interpolated count is a non-empty string of decimal digits with no leading zero |
| Text.ParseNatToString | WordGarden/ContentView.swift:156 | reading the interpolated count back gives the count, so the number shown is the number held |
| Text.NatToStringInjective | WordGarden/ContentView.swift:171 | different counts are rendered as different digit strings |
| Gameplay.DigitsPrefixUnique | WordGarden/ContentView.swift:156 | a rendered count followed by text that starts with a space can be split back into that count and that text in only one way |
| Gameplay.ProgressMessageInjective | WordGarden/ContentView.swift:171 | different guess counts produce different progress messages |
| Gameplay.WonMessageInjective | WordGarden/ContentView.swift:156 | different guess counts produce different winning messages |
| Text.ContainsChar | WordGarden/ContentView.swift:142 | `word.contains(letter)` on a one-letter string holds exactly when the letter occurs in the word |
| Text.ToUpper | WordGarden/ContentView.swift:79 | `uppercased()` maps every ASCII letter to an upper-case letter and leaves other characters alone |
| Text.LeadingNonLetters | WordGarden/ContentView.swift:76 | trimming removes exactly the non-letters before the first letter |
| Text.TrailingNonLetters | WordGarden/ContentView.swift:76 | trimming removes exactly the non-letters after the last letter |
| Text.Sanitize | WordGarden/ContentView.swift:75-80 | the sanitised field is empty or one upper-case letter; it is empty exactly when no letter was typed; otherwise it is the upper-cased last letter typed |
| Text.SanitizeIdempotent | WordGarden/ContentView.swift:75-80 | the handler fires again when it writes the field back, and that second run changes nothing |
| Mask.Join | WordGarden/ContentView.swift:136-137 | `joined(separator: " ")` puts the cells at even positions and single spaces between them, giving length 2n-1 |
| Mask.RevealAt | WordGarden/ContentView.swift:136-137 | position k of the revealed word is the word's letter k/2 if that letter was guessed and `_` if not, at even k; it is a space at odd k |
| Mask.BlankIsNothingRevealed | WordGarden/ContentView.swift:107-137 | the all-underscore mask a round starts with is the mask of the word with nothing guessed |
| Mask.SolvedIffAllGuessed | WordGarden/ContentView.swift:155 | the revealed word has no `_` exactly when every letter of the word has been guessed |
| Mask.RevealMonotone | WordGarden/ContentView.swift:135-137 | guessing more letters keeps the mask's length and never hides a letter already shown |
| Gameplay.DefaultWordsWellFormed | WordGarden/ContentView.swift:14 | the shipped word list is non-empty, and its words are non-empty upper-case words |
| Gameplay.Misses | WordGarden/ContentView.swift:142-143 | the wrong guesses charged are at most the guesses made, and none when every guess is in the word |
| Gameplay.MissesAppend | WordGarden/ContentView.swift:135-143 | one more guess adds one miss exactly when the letter is not in the word, even if it was guessed before |
| Gameplay.Initial | WordGarden/ContentView.swift:12-130 | the first screen has counters 0, index 0, the first word fully masked with nothing guessed, an empty field, 8 guesses, the full flower, the prompt, the "Another Word?" label and the guess controls shown; for a well-formed list it satisfies the invariant |
| Gameplay.InvBounds | WordGarden/ContentView.swift:43-136 | under the invariant, the index reads during a round are in bounds, "Words to Guess" lies between 0 and the list length, and the remaining guesses lie in 0..8 and are positive during a round |
| Gameplay.ChangedInv | WordGarden/ContentView.swift:75-80 | typing into the guess field keeps the invariant |
| Gameplay.WordHasNoPlaceholder | WordGarden/ContentView.swift:14 | no word of the list contains the mask placeholder `_` |
| Gameplay.PlayedAgainInv | WordGarden/ContentView.swift:98-113 | the play-again button keeps the invariant |
| Gameplay.InvInRound | WordGarden/ContentView.swift:61-136 | while the guess controls are shown, the current word is in the list, a guess is left, and the field holds at most one letter |
| Gameplay.GuessCharged | WordGarden/ContentView.swift:133-152 | a guess appends its letter, recomputes the mask and plays a cue; it charges one guess and wilts the flower exactly when the letter is not in the word; the mask then still has `_` exactly when some letter is unguessed |
| Gameplay.DecidedEffect | WordGarden/ContentView.swift:155-178 | win takes precedence over loss, and loss over continuing, each with its counters, index, status, cue and flag; the restart label and sentence appear exactly when the index reaches the end of the list; the field is cleared |
| Gameplay.SubmitRecordsGuess | WordGarden/ContentView.swift:133-178 | a submitted guess is appended to the guessed letters, repeats included; the mask shows the word against them; exactly one guess is lost for a letter not in the word; the field is cleared |
| Gameplay.SubmitOutcome | WordGarden/ContentView.swift:155-177 | after a guess: won when all letters are guessed; else lost at zero guesses; else the round continues, with unchanged counters and a status counting the guesses made (Guess/Guesses); the restart label appears at the end of the list |
| Gameplay.DecidedWonInv | WordGarden/ContentView.swift:155-178 | a winning guess leaves the invariant holding |
| Gameplay.DecidedLostInv | WordGarden/ContentView.swift:162-178 | a guess that uses up the last guess without winning leaves the invariant holding |
| Gameplay.DecidedContinueInv | WordGarden/ContentView.swift:169-178 | a guess that neither wins nor uses the last guess leaves the invariant holding |
| Gameplay.SubmittedInv | WordGarden/ContentView.swift:81-179 | submitting during a round keeps the invariant, whatever the outcome |
| Gameplay.EmptySubmitIgnored | WordGarden/ContentView.swift:82-88 | submitting with an empty guess field changes nothing |
| Gameplay.RevealedLettersStay | WordGarden/ContentView.swift:135-137 | within a round, a letter once revealed stays revealed after the next submission |
| Gameplay.PlayAgainEffect | WordGarden/ContentView.swift:98-113 | after the last word, play-again resets the index, the counters and the label; otherwise it keeps them; either way it starts a round on the current word, fully masked, with nothing guessed, 8 guesses and the prompt |
| Gameplay.Step | WordGarden/ContentView.swift:61-113 | any user action, including one on a hidden control (which is ignored), keeps the invariant |
| Gameplay.Run | WordGarden/ContentView.swift:61-113 | any sequence of user actions keeps the invariant |
| Gameplay.Reachable | WordGarden/ContentView.swift:43-165 | from the first screen, after any actions: words guessed plus missed equals the index, at most the list length; "Words to Guess" is never negative; 0..8 guesses remain; during a round the index is in bounds |
| WordGarden.ContentView.constructor | WordGarden/ContentView.swift:12-130 | the field initialisers followed by `.onAppear` produce the initial state, which satisfies the invariant |
| WordGarden.ContentView.OnAppear | WordGarden/ContentView.swift:126-130 | the word to guess becomes the current word, shown fully masked, and nothing else changes |
| WordGarden.ContentView.OnChange | WordGarden/ContentView.swift:63-80 | the field holds the sanitised text, nothing else changes, and the invariant is kept |
| WordGarden.ContentView.SanitizeGuess | WordGarden/ContentView.swift:75-80 | the handler replaces the field by its sanitised value and changes nothing else |
| WordGarden.ContentView.GuessALetter | WordGarden/ContentView.swift:133-138 | the guess is appended and the mask recomputed against the current word; nothing else changes |
| WordGarden.ContentView.ChargeGuess | WordGarden/ContentView.swift:141-152 | a wrong guess costs one guess, wilts the flower and logs the incorrect cue; a right one logs the correct cue |
| WordGarden.ContentView.DecideRound | WordGarden/ContentView.swift:154-172 | the state becomes won, lost or continued, in that order of precedence |
| WordGarden.ContentView.OfferRestart | WordGarden/ContentView.swift:174-177 | at the end of the list, the label becomes the restart label and the restart sentence is appended |
| WordGarden.ContentView.UpdateGameplay | WordGarden/ContentView.swift:140-179 | charging, deciding and offering a restart happen in that order, then the field is cleared |
| WordGarden.ContentView.Submit | WordGarden/ContentView.swift:81-91 | an empty field is ignored; otherwise `guessALetter` then `updateGameplay` run; the invariant is kept |
| WordGarden.ContentView.PlayAgain | WordGarden/ContentView.swift:98-113 | the play-again closure resets after the last word and starts a round; the invariant is kept |
| WordGarden.ContentView.StartRound | WordGarden/ContentView.swift:106-112 | the current word is shown fully masked, with nothing guessed, 8 guesses, the flower, the prompt and the guess controls |
| WordGarden.ContentView.WordsToGuessCount | WordGarden/ContentView.swift:43 | the "Words to Guess" figure lies between 0 and the list length, and it is 0 exactly when the index is at the end of the list |

## Left out

- SwiftUI layout, rendering, keyboard focus (`isKeyboardFocused`, :134) and the image
  animation. They are presentation only.
- `playSound`, `AVAudioPlayer` and its `fatalError` on a decoding failure (:181-192). This is a
  foreign audio API. The model appends the cue name to the `sounds` log instead.
- The delayed revert of the image from "wilt" to "flower" through `DispatchQueue.main.asyncAfter`
  (:146-148). It is timed and asynchronous. The model keeps the immediate assignments, so the
  invariant allows either image for the current guess count.
- Unicode semantics of `.letters`, `trimmingCharacters` and `uppercased()`. Letters are ASCII
  letters, and upper-casing maps one character to one character.
- The view appearing a second time. `.onAppear` runs once, inside the constructor. A
  re-appearance after the last word would read one past the end of the list.
- Swift's fixed-width `Int` and its overflow trap. The counters are unbounded, and the
  invariant keeps them at most the list length.
- `#Preview` (:195-197).
- `Gameplay.Initial`: its contract states the invariant only for a well-formed word list.
  Swift's literal list is fixed, while here the list is a parameter.
- A repeated wrong letter is charged again (the TODO at :150). This follows the code: the model
  counts misses over all guesses, repeats included, not over distinct letters.
