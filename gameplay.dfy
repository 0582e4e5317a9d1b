/**
 * The game engine of the WordGarden screen as values: a snapshot of the
 * screen's state fields, one function per state change the screen performs,
 * the invariant those changes keep, and what each change promises.
 */
module Gameplay {
  import opened Text
  import opened Mask

  // ---------------------------------------------------------------------------
  // Constants of the screen
  // ---------------------------------------------------------------------------

  const MaximumGuesses: int := 8

  /** The word list the app ships with. */
  const DefaultWords: seq<string> := ["SWIFT", "CAT", "DOG"]

  const Prompt: string := "How Many Guesses to Uncover the Hidden Word?"
  const LostMessage: string := "So Sorry, You're All Out of Guesses"
  const RestartSuffix: string := "\nYou've Tried All the Words. Restart from the Beginning?"
  const AnotherWordLabel: string := "Another Word?"
  const RestartGameLabel: string := "Restart Game?"

  const CorrectCue: string := "correct"
  const IncorrectCue: string := "incorrect"
  const WordGuessedCue: string := "word-guessed"
  const WordNotGuessedCue: string := "word-not-guessed"

  function WonMessage(count: nat): string {
    "You Guessed It! It Took You " + NatToString(count) + " Guesses to Guess the Word."
  }

  /** "You've Made 1 Guess", "You've Made 2 Guesses", ... */
  function ProgressMessage(count: nat): string {
    "You've Made " + NatToString(count) + " Guess" + (if count == 1 then "" else "es")
  }

  /** A string of digits followed by a text that starts with a non-digit splits there and only there. */
  lemma {:induction false} DigitsPrefixUnique(s: string, t: string, x: string, y: string)
    requires forall i :: 0 <= i < |s| ==> IsDigit(s[i])
    requires forall i :: 0 <= i < |t| ==> IsDigit(t[i])
    requires |x| > 0 && !IsDigit(x[0]) && |y| > 0 && !IsDigit(y[0])
    requires s + x == t + y
    ensures s == t
  {
    var k := if |s| < |t| then |s| else |t|;
    assert IsDigit((s + x)[k]) <==> k < |s|;
    assert IsDigit((t + y)[k]) <==> k < |t|;
    assert s == (s + x)[..|s|] == (t + y)[..|t|] == t;
  }

  /** Different guess counts give different progress messages. */
  lemma {:induction false} ProgressMessageInjective(m: nat, n: nat)
    requires ProgressMessage(m) == ProgressMessage(n)
    ensures m == n
  {
    var p := "You've Made ";
    var x := " Guess" + (if m == 1 then "" else "es");
    var y := " Guess" + (if n == 1 then "" else "es");
    assert ProgressMessage(m) == p + (NatToString(m) + x);
    assert ProgressMessage(n) == p + (NatToString(n) + y);
    assert NatToString(m) + x == ProgressMessage(m)[|p|..] == ProgressMessage(n)[|p|..] == NatToString(n) + y;
    DigitsPrefixUnique(NatToString(m), NatToString(n), x, y);
    NatToStringInjective(m, n);
  }

  /** Different guess counts give different winning messages. */
  lemma {:induction false} WonMessageInjective(m: nat, n: nat)
    requires WonMessage(m) == WonMessage(n)
    ensures m == n
  {
    var p := "You Guessed It! It Took You ";
    var x := " Guesses to Guess the Word.";
    assert WonMessage(m) == p + (NatToString(m) + x);
    assert WonMessage(n) == p + (NatToString(n) + x);
    assert NatToString(m) + x == WonMessage(m)[|p|..] == WonMessage(n)[|p|..] == NatToString(n) + x;
    DigitsPrefixUnique(NatToString(m), NatToString(n), x, x);
    NatToStringInjective(m, n);
  }

  function FlowerImage(remaining: int): string {
    "flower" + IntToString(remaining)
  }

  function WiltImage(remaining: int): string {
    "wilt" + IntToString(remaining)
  }

  /** A word of the list: non-empty, upper-case letters only. */
  predicate IsWord(w: string) {
    |w| > 0 && AllUpper(w)
  }

  predicate WellFormedWords(words: seq<string>) {
    |words| > 0 && forall i :: 0 <= i < |words| ==> IsWord(words[i])
  }

  predicate AllUpper(s: string) {
    forall i :: 0 <= i < |s| ==> IsUpperLetter(s[i])
  }

  lemma DefaultWordsWellFormed()
    ensures WellFormedWords(DefaultWords)
  {
    assert IsWord("SWIFT") && IsWord("CAT") && IsWord("DOG");
  }

  /** The number of guesses in `guessed` that are not letters of `word`, repeats included. */
  function Misses(word: string, guessed: string): (n: nat)
    ensures n <= |guessed|
    ensures n == 0 <== forall i :: 0 <= i < |guessed| ==> guessed[i] in word
  {
    if guessed == [] then 0
    else Misses(word, guessed[..|guessed| - 1]) + (if guessed[|guessed| - 1] in word then 0 else 1)
  }

  // ---------------------------------------------------------------------------
  // The state fields
  // ---------------------------------------------------------------------------

  /** One value per state field of the screen; `sounds` logs the cues played, in order. */
  datatype Game = Game(
    wordsGuessed: int,
    wordsMissed: int,
    gameStatusMessage: string,
    currentWordIndex: int,
    wordToGuess: string,
    guessedLetter: string,
    lettersGuessed: string,
    guessesRemaining: int,
    imageName: string,
    playAgainHidden: bool,
    playAgainButtonLabel: string,
    revealedWord: string,
    sounds: seq<string>)

  /** The field initialisers, before the screen appears. */
  function Defaults(): Game {
    Game(0, 0, Prompt, 0, "", "", "", MaximumGuesses, FlowerImage(MaximumGuesses),
         true, AnotherWordLabel, "", [])
  }

  // ---------------------------------------------------------------------------
  // State changes
  // ---------------------------------------------------------------------------

  /** `.onAppear`: the current word becomes the word to guess, shown fully masked. */
  function Appeared(words: seq<string>, g: Game): Game
    requires 0 <= g.currentWordIndex < |words|
  {
    var w := words[g.currentWordIndex];
    g.(wordToGuess := w, revealedWord := Blank(|w|))
  }

  /** The state when the screen first shows; for a well-formed list, the invariant holds from the start. */
  function Initial(words: seq<string>): (g: Game)
    requires |words| > 0
    ensures g.wordsGuessed == 0 && g.wordsMissed == 0 && g.currentWordIndex == 0
    ensures g.wordToGuess == words[0] && g.revealedWord == Blank(|words[0]|)
    ensures g.guessedLetter == "" && g.lettersGuessed == ""
    ensures g.guessesRemaining == MaximumGuesses && g.imageName == "flower8"
    ensures g.gameStatusMessage == Prompt && g.playAgainButtonLabel == AnotherWordLabel
    ensures g.playAgainHidden && g.sounds == []
    ensures WellFormedWords(words) ==> Inv(words, g)
  {
    assert IntToString(8) == "8";
    BlankIsNothingRevealed(words[0]);
    Appeared(words, Defaults())
  }

  /** The text field receives `text`, and its `.onChange` handler sanitises it. */
  function Changed(g: Game, text: string): Game {
    g.(guessedLetter := Sanitize(text))
  }

  /** `guessALetter`: record the guess and recompute the mask against the current word. */
  function LetterGuessed(words: seq<string>, g: Game): Game
    requires 0 <= g.currentWordIndex < |words|
  {
    var letters := g.lettersGuessed + g.guessedLetter;
    g.(lettersGuessed := letters, revealedWord := Reveal(words[g.currentWordIndex], letters))
  }

  /** A wrong guess costs one guess and wilts the flower; either way the matching cue plays. */
  function Charged(g: Game): Game {
    if !Contains(g.wordToGuess, g.guessedLetter) then
      g.(guessesRemaining := g.guessesRemaining - 1,
         imageName := WiltImage(g.guessesRemaining - 1),
         sounds := g.sounds + [IncorrectCue])
    else
      g.(sounds := g.sounds + [CorrectCue])
  }

  /** Won if no placeholder is left, else lost if no guess is left, else the round goes on. */
  function Decided(g: Game): Game {
    if !Contains(g.revealedWord, "_") then
      g.(gameStatusMessage := WonMessage(|g.lettersGuessed|),
         wordsGuessed := g.wordsGuessed + 1,
         currentWordIndex := g.currentWordIndex + 1,
         playAgainHidden := false,
         sounds := g.sounds + [WordGuessedCue])
    else if g.guessesRemaining == 0 then
      g.(gameStatusMessage := LostMessage,
         wordsMissed := g.wordsMissed + 1,
         currentWordIndex := g.currentWordIndex + 1,
         playAgainHidden := false,
         sounds := g.sounds + [WordNotGuessedCue])
    else
      g.(gameStatusMessage := ProgressMessage(|g.lettersGuessed|))
  }

  /** After the last word the button offers a restart and the status says so. */
  function RestartOffered(words: seq<string>, g: Game): Game {
    if g.currentWordIndex == |words| then
      g.(playAgainButtonLabel := RestartGameLabel,
         gameStatusMessage := g.gameStatusMessage + RestartSuffix)
    else
      g
  }

  /** `updateGameplay`: charge a wrong guess, decide the round, offer a restart, clear the field. */
  function GameplayUpdated(words: seq<string>, g: Game): Game {
    RestartOffered(words, Decided(Charged(g))).(guessedLetter := "")
  }

  /** `.onSubmit` or the "Guess A Letter" button: ignored while the field is empty. */
  function Submitted(words: seq<string>, g: Game): Game
    requires g.guessedLetter == "" || 0 <= g.currentWordIndex < |words|
  {
    if g.guessedLetter == "" then g else GameplayUpdated(words, LetterGuessed(words, g))
  }

  /** A new round on the current word: fully masked, nothing guessed, every guess available. */
  function RoundStarted(words: seq<string>, g: Game): Game
    requires 0 <= g.currentWordIndex < |words|
  {
    var w := words[g.currentWordIndex];
    g.(wordToGuess := w,
       revealedWord := Blank(|w|),
       lettersGuessed := "",
       guessesRemaining := MaximumGuesses,
       imageName := FlowerImage(MaximumGuesses),
       gameStatusMessage := Prompt,
       playAgainHidden := true)
  }

  /** The play-again button: restart after the last word, then start a round on the current word. */
  function PlayedAgain(words: seq<string>, g: Game): Game
    requires |words| > 0 && 0 <= g.currentWordIndex <= |words|
  {
    var g1 :=
      if g.currentWordIndex == |words| then
        g.(currentWordIndex := 0, wordsGuessed := 0, wordsMissed := 0,
           playAgainButtonLabel := AnotherWordLabel)
      else
        g;
    RoundStarted(words, g1)
  }

  // ---------------------------------------------------------------------------
  // The invariant
  // ---------------------------------------------------------------------------

  /** While a round is being played (the guess controls are shown). */
  ghost predicate Guessing(words: seq<string>, g: Game)
    requires 0 <= g.currentWordIndex
  {
    && g.currentWordIndex < |words|
    && g.wordToGuess == words[g.currentWordIndex]
    && !AllGuessed(g.wordToGuess, g.lettersGuessed)
    && g.guessesRemaining > 0
    && g.gameStatusMessage ==
         (if g.lettersGuessed == "" then Prompt else ProgressMessage(|g.lettersGuessed|))
  }

  /** After a round ended (the play-again button is shown). */
  ghost predicate RoundOver(words: seq<string>, g: Game)
    requires g.currentWordIndex <= |words|
  {
    && 0 < g.currentWordIndex
    && g.wordToGuess == words[g.currentWordIndex - 1]
    && (AllGuessed(g.wordToGuess, g.lettersGuessed) || g.guessesRemaining == 0)
    && g.gameStatusMessage ==
         (if AllGuessed(g.wordToGuess, g.lettersGuessed) then WonMessage(|g.lettersGuessed|) else LostMessage)
         + (if g.currentWordIndex == |words| then RestartSuffix else "")
  }

  /** What holds of the screen's fields between any two user actions. */
  ghost predicate Inv(words: seq<string>, g: Game) {
    && WellFormedWords(words)
    && 0 <= g.wordsGuessed && 0 <= g.wordsMissed
    && g.wordsGuessed + g.wordsMissed == g.currentWordIndex <= |words|
    && g.playAgainButtonLabel ==
         (if g.currentWordIndex == |words| then RestartGameLabel else AnotherWordLabel)
    && IsGuess(g.guessedLetter)
    && AllUpper(g.lettersGuessed)
    && 0 <= g.guessesRemaining <= MaximumGuesses
    && g.guessesRemaining == MaximumGuesses - Misses(g.wordToGuess, g.lettersGuessed)
    && (g.imageName == FlowerImage(g.guessesRemaining) || g.imageName == WiltImage(g.guessesRemaining))
    && g.revealedWord == Reveal(g.wordToGuess, g.lettersGuessed)
    && (if g.playAgainHidden then Guessing(words, g) else RoundOver(words, g))
  }

  /** Under the invariant every read of the word list is in bounds and the "Words to Guess" figure is a count. */
  lemma InvBounds(words: seq<string>, g: Game)
    requires Inv(words, g)
    ensures g.playAgainHidden ==> 0 <= g.currentWordIndex < |words|
    ensures 0 <= |words| - (g.wordsGuessed + g.wordsMissed) <= |words|
    ensures 0 <= g.guessesRemaining <= MaximumGuesses
    ensures g.playAgainHidden ==> g.guessesRemaining >= 1
  {
  }

  // ---------------------------------------------------------------------------
  // Each state change keeps the invariant
  // ---------------------------------------------------------------------------

  lemma ChangedInv(words: seq<string>, g: Game, text: string)
    requires Inv(words, g)
    ensures Inv(words, Changed(g, text))
  {
  }

  /** Letters of a well-formed word are never the mask's placeholder. */
  lemma WordHasNoPlaceholder(words: seq<string>, i: int)
    requires WellFormedWords(words) && 0 <= i < |words|
    ensures '_' !in words[i]
  {
    assert IsWord(words[i]);
  }

  /** One submitted letter `c`: the guessed letters grow by `c` and the misses by one exactly when `c` is wrong. */
  lemma MissesAppend(word: string, guessed: string, c: char)
    ensures Misses(word, guessed + [c]) == Misses(word, guessed) + (if c in word then 0 else 1)
  {
    assert (guessed + [c])[..|guessed|] == guessed;
  }

  lemma PlayedAgainInv(words: seq<string>, g: Game)
    requires Inv(words, g) && !g.playAgainHidden
    ensures Inv(words, PlayedAgain(words, g))
  {
    var g' := PlayedAgain(words, g);
    BlankIsNothingRevealed(g'.wordToGuess);
    assert IsWord(g'.wordToGuess);
    assert g'.wordToGuess[0] !in "";
  }

  /**
   * What a guess needs of the state: a round is on with a guess left, the
   * word to guess is the current word of the list, and that word has no
   * placeholder in it.
   */
  ghost predicate InRound(words: seq<string>, g: Game) {
    && 0 <= g.currentWordIndex < |words|
    && g.wordToGuess == words[g.currentWordIndex]
    && '_' !in g.wordToGuess
    && g.playAgainHidden
    && g.guessesRemaining > 0
    && g.playAgainButtonLabel == AnotherWordLabel
  }

  lemma InvInRound(words: seq<string>, g: Game)
    requires Inv(words, g) && g.playAgainHidden
    ensures InRound(words, g)
    ensures g.guessedLetter != "" ==> |g.guessedLetter| == 1
  {
    WordHasNoPlaceholder(words, g.currentWordIndex);
  }

  /**
   * The first two steps of a guess `c`, spelled out: `c` is appended to the
   * guessed letters, the mask is recomputed against the word, and one guess
   * is charged exactly when `c` is not in the word.
   */
  lemma {:induction false} GuessCharged(words: seq<string>, g: Game)
    requires InRound(words, g) && |g.guessedLetter| == 1
    ensures
      var c := g.guessedLetter[0];
      var w := g.wordToGuess;
      var letters := g.lettersGuessed + [c];
      var remaining := if c in w then g.guessesRemaining else g.guessesRemaining - 1;
      && Charged(LetterGuessed(words, g)) ==
           g.(lettersGuessed := letters,
              revealedWord := Reveal(w, letters),
              guessesRemaining := remaining,
              imageName := if c in w then g.imageName else WiltImage(remaining),
              sounds := g.sounds + [if c in w then CorrectCue else IncorrectCue])
      && (Contains(Reveal(w, letters), "_") <==> !AllGuessed(w, letters))
  {
    var c := g.guessedLetter[0];
    var w := g.wordToGuess;
    var letters := g.lettersGuessed + [c];
    assert g.guessedLetter == [c];
    ContainsChar(w, c);
    ContainsChar(Reveal(w, letters), '_');
    SolvedIffAllGuessed(w, letters);
  }

  /**
   * Deciding the round: won when no placeholder is left, else lost when no
   * guess is left, else the round goes on with counters and index unchanged;
   * the restart offer appears once the index reaches the end of the list, and
   * the guess field is cleared.
   */
  lemma DecidedEffect(words: seq<string>, g: Game)
    requires g.playAgainHidden && 0 <= g.currentWordIndex < |words|
    requires g.playAgainButtonLabel == AnotherWordLabel
    ensures
      var g' := RestartOffered(words, Decided(g)).(guessedLetter := "");
      && g'.guessedLetter == ""
      && g'.lettersGuessed == g.lettersGuessed && g'.revealedWord == g.revealedWord
      && g'.wordToGuess == g.wordToGuess && g'.guessesRemaining == g.guessesRemaining
      && g'.imageName == g.imageName
      && (!Contains(g.revealedWord, "_") ==>
            && g'.wordsGuessed == g.wordsGuessed + 1 && g'.wordsMissed == g.wordsMissed
            && g'.currentWordIndex == g.currentWordIndex + 1 && !g'.playAgainHidden
            && g'.sounds == g.sounds + [WordGuessedCue]
            && g'.gameStatusMessage == WonMessage(|g.lettersGuessed|)
                 + (if g'.currentWordIndex == |words| then RestartSuffix else ""))
      && (Contains(g.revealedWord, "_") && g.guessesRemaining == 0 ==>
            && g'.wordsGuessed == g.wordsGuessed && g'.wordsMissed == g.wordsMissed + 1
            && g'.currentWordIndex == g.currentWordIndex + 1 && !g'.playAgainHidden
            && g'.sounds == g.sounds + [WordNotGuessedCue]
            && g'.gameStatusMessage == LostMessage
                 + (if g'.currentWordIndex == |words| then RestartSuffix else ""))
      && (Contains(g.revealedWord, "_") && g.guessesRemaining != 0 ==>
            && g'.wordsGuessed == g.wordsGuessed && g'.wordsMissed == g.wordsMissed
            && g'.currentWordIndex == g.currentWordIndex && g'.playAgainHidden
            && g'.sounds == g.sounds
            && g'.gameStatusMessage == ProgressMessage(|g.lettersGuessed|))
      && g'.playAgainButtonLabel ==
           (if g'.currentWordIndex == |words| then RestartGameLabel else AnotherWordLabel)
  {
  }

  /**
   * Submitting a guess `c` during a round: `c` is appended to the guessed
   * letters (repeats included), the mask is recomputed against the word,
   * exactly one guess is charged when `c` is not in the word (even if it was
   * guessed before) and none otherwise, and the guess field is cleared.
   */
  lemma {:induction false} SubmitRecordsGuess(words: seq<string>, g: Game)
    requires InRound(words, g) && |g.guessedLetter| == 1
    ensures
      var c := g.guessedLetter[0];
      var w := words[g.currentWordIndex];
      var g' := Submitted(words, g);
      && g'.lettersGuessed == g.lettersGuessed + [c]
      && g'.guessedLetter == ""
      && g'.wordToGuess == w
      && g'.revealedWord == Reveal(w, g'.lettersGuessed)
      && g'.guessesRemaining == (if c in w then g.guessesRemaining else g.guessesRemaining - 1)
  {
    GuessCharged(words, g);
    var g2 := Charged(LetterGuessed(words, g));
    assert Submitted(words, g) == RestartOffered(words, Decided(g2)).(guessedLetter := "");
    DecidedEffect(words, g2);
  }

  /**
   * The outcome of a guess `c` during a round, in the order the screen
   * checks it: won if every letter of the word is now guessed; else lost if
   * no guess is left; else the round continues with counters and index
   * unchanged and the status counting the guesses made, pluralised. The
   * restart offer appears once the index reaches the end of the list.
   */
  lemma {:induction false} SubmitOutcome(words: seq<string>, g: Game)
    requires InRound(words, g) && |g.guessedLetter| == 1
    ensures
      var c := g.guessedLetter[0];
      var w := words[g.currentWordIndex];
      var letters := g.lettersGuessed + [c];
      var g' := Submitted(words, g);
      var cue := if c in w then CorrectCue else IncorrectCue;
      && (AllGuessed(w, letters) ==>
            && g'.wordsGuessed == g.wordsGuessed + 1 && g'.wordsMissed == g.wordsMissed
            && g'.currentWordIndex == g.currentWordIndex + 1 && !g'.playAgainHidden
            && g'.sounds == g.sounds + [cue, WordGuessedCue])
      && (!AllGuessed(w, letters) && g'.guessesRemaining == 0 ==>
            && g'.wordsGuessed == g.wordsGuessed && g'.wordsMissed == g.wordsMissed + 1
            && g'.currentWordIndex == g.currentWordIndex + 1 && !g'.playAgainHidden
            && g'.sounds == g.sounds + [IncorrectCue, WordNotGuessedCue])
      && (!AllGuessed(w, letters) && g'.guessesRemaining != 0 ==>
            && g'.wordsGuessed == g.wordsGuessed && g'.wordsMissed == g.wordsMissed
            && g'.currentWordIndex == g.currentWordIndex && g'.playAgainHidden
            && g'.sounds == g.sounds + [cue]
            && g'.gameStatusMessage == ProgressMessage(|letters|))
      && g'.playAgainButtonLabel ==
           (if g'.currentWordIndex == |words| then RestartGameLabel else AnotherWordLabel)
  {
    GuessCharged(words, g);
    var g2 := Charged(LetterGuessed(words, g));
    assert Submitted(words, g) == RestartOffered(words, Decided(g2)).(guessedLetter := "");
    DecidedEffect(words, g2);
    var c := g.guessedLetter[0];
    if AllGuessed(g.wordToGuess, g.lettersGuessed + [c]) {
      assert !Contains(g2.revealedWord, "_");
    } else {
      assert Contains(g2.revealedWord, "_");
    }
  }

  /**
   * What holds once a guess has been recorded and charged, before the round
   * is decided: the invariant without its round-state part, on the current word.
   */
  ghost predicate Charging(words: seq<string>, g: Game) {
    && WellFormedWords(words)
    && 0 <= g.wordsGuessed && 0 <= g.wordsMissed
    && g.wordsGuessed + g.wordsMissed == g.currentWordIndex < |words|
    && g.playAgainButtonLabel == AnotherWordLabel
    && g.playAgainHidden
    && g.wordToGuess == words[g.currentWordIndex]
    && AllUpper(g.lettersGuessed) && g.lettersGuessed != ""
    && 0 <= g.guessesRemaining <= MaximumGuesses
    && g.guessesRemaining == MaximumGuesses - Misses(g.wordToGuess, g.lettersGuessed)
    && (g.imageName == FlowerImage(g.guessesRemaining) || g.imageName == WiltImage(g.guessesRemaining))
    && g.revealedWord == Reveal(g.wordToGuess, g.lettersGuessed)
    && (Contains(g.revealedWord, "_") <==> !AllGuessed(g.wordToGuess, g.lettersGuessed))
  }

  lemma DecidedWonInv(words: seq<string>, g: Game)
    requires Charging(words, g) && !Contains(g.revealedWord, "_")
    ensures Inv(words, RestartOffered(words, Decided(g)).(guessedLetter := ""))
  {
  }

  lemma DecidedLostInv(words: seq<string>, g: Game)
    requires Charging(words, g) && Contains(g.revealedWord, "_") && g.guessesRemaining == 0
    ensures Inv(words, RestartOffered(words, Decided(g)).(guessedLetter := ""))
  {
  }

  lemma DecidedContinueInv(words: seq<string>, g: Game)
    requires Charging(words, g) && Contains(g.revealedWord, "_") && g.guessesRemaining != 0
    ensures Inv(words, RestartOffered(words, Decided(g)).(guessedLetter := ""))
  {
  }

  /** Submitting keeps the invariant; this is where the guess controls being shown only during a round is needed. */
  lemma {:induction false} SubmittedInv(words: seq<string>, g: Game)
    requires Inv(words, g) && g.playAgainHidden
    ensures Inv(words, Submitted(words, g))
  {
    if g.guessedLetter != "" {
      InvInRound(words, g);
      var c := g.guessedLetter[0];
      var letters := g.lettersGuessed + [c];
      GuessCharged(words, g);
      MissesAppend(g.wordToGuess, g.lettersGuessed, c);
      assert AllUpper(letters);
      var g2 := Charged(LetterGuessed(words, g));
      assert Charging(words, g2);
      assert Submitted(words, g) == RestartOffered(words, Decided(g2)).(guessedLetter := "");
      if !Contains(g2.revealedWord, "_") {
        DecidedWonInv(words, g2);
      } else if g2.guessesRemaining == 0 {
        DecidedLostInv(words, g2);
      } else {
        DecidedContinueInv(words, g2);
      }
    }
  }

  // ---------------------------------------------------------------------------
  // What each action promises
  // ---------------------------------------------------------------------------

  /** Submitting with an empty guess field changes nothing. */
  lemma EmptySubmitIgnored(words: seq<string>, g: Game)
    requires g.guessedLetter == ""
    ensures Submitted(words, g) == g
  {
  }

  /** Within a round a letter once shown stays shown: the next guess never hides it. */
  lemma {:induction false} RevealedLettersStay(words: seq<string>, g: Game)
    requires Inv(words, g) && g.playAgainHidden
    ensures
      var g' := Submitted(words, g);
      && |g'.revealedWord| == |g.revealedWord|
      && forall k :: 0 <= k < |g.revealedWord| && g.revealedWord[k] != '_' ==>
           g'.revealedWord[k] == g.revealedWord[k]
  {
    if g.guessedLetter != "" {
      InvInRound(words, g);
      SubmitRecordsGuess(words, g);
      var g' := Submitted(words, g);
      RevealMonotone(g.wordToGuess, g.lettersGuessed, g'.lettersGuessed);
    }
  }

  /**
   * Play-again after the last word resets the counters, the index and the
   * button label; otherwise it keeps them. Either way a new round starts on
   * the current word, fully masked, with nothing guessed and every guess
   * available.
   */
  lemma {:induction false} PlayAgainEffect(words: seq<string>, g: Game)
    requires Inv(words, g) && !g.playAgainHidden
    ensures
      var g' := PlayedAgain(words, g);
      && (g.currentWordIndex == |words| ==>
            g'.currentWordIndex == 0 && g'.wordsGuessed == 0 && g'.wordsMissed == 0)
      && (g.currentWordIndex < |words| ==>
            && g'.currentWordIndex == g.currentWordIndex
            && g'.wordsGuessed == g.wordsGuessed && g'.wordsMissed == g.wordsMissed)
      && g'.playAgainButtonLabel == AnotherWordLabel
      && g'.wordToGuess == words[g'.currentWordIndex]
      && g'.revealedWord == Blank(|g'.wordToGuess|)
      && |g'.revealedWord| == 2 * |g'.wordToGuess| - 1
      && g'.lettersGuessed == ""
      && g'.guessesRemaining == MaximumGuesses
      && g'.gameStatusMessage == Prompt
      && g'.playAgainHidden
  {
    var g' := PlayedAgain(words, g);
    assert IsWord(g'.wordToGuess);
  }

  // ---------------------------------------------------------------------------
  // Runs of user actions
  // ---------------------------------------------------------------------------

  /** What the user can do on the screen. */
  datatype Action = Type(text: string) | Submit | PlayAgain

  /** One action; an action whose control is not on screen has no effect. */
  function Step(words: seq<string>, g: Game, a: Action): (g': Game)
    requires Inv(words, g)
    ensures Inv(words, g')
  {
    match a
    case Type(text) =>
      if g.playAgainHidden then ChangedInv(words, g, text); Changed(g, text) else g
    case Submit =>
      if g.playAgainHidden then SubmittedInv(words, g); Submitted(words, g) else g
    case PlayAgain =>
      if g.playAgainHidden then g else PlayedAgainInv(words, g); PlayedAgain(words, g)
  }

  /** A sequence of actions, one after another. */
  function Run(words: seq<string>, g: Game, actions: seq<Action>): (g': Game)
    requires Inv(words, g)
    ensures Inv(words, g')
    decreases |actions|
  {
    if actions == [] then g else Run(words, Step(words, g, actions[0]), actions[1..])
  }

  /**
   * From the first screen, whatever the user does: the words guessed and
   * missed add up to the current index, which stays within the list; the
   * "Words to Guess" figure is never negative; the remaining guesses stay in
   * 0..8; and during a round the index points at a word.
   */
  lemma {:induction false} Reachable(words: seq<string>, actions: seq<Action>)
    requires WellFormedWords(words)
    ensures
      var g := Run(words, Initial(words), actions);
      && g.wordsGuessed + g.wordsMissed == g.currentWordIndex <= |words|
      && |words| - (g.wordsGuessed + g.wordsMissed) >= 0
      && 0 <= g.guessesRemaining <= MaximumGuesses
      && (g.playAgainHidden ==> 0 <= g.currentWordIndex < |words|)
  {
    var g := Run(words, Initial(words), actions);
    InvBounds(words, g);
  }
}
