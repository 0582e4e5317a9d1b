/**
 * The WordGarden game screen: its state fields and the handlers that update
 * them in place. Each handler is proved to leave the fields exactly as the
 * matching function of module Gameplay says; the public handlers
 * (`OnChange`, `Submit`, `PlayAgain`) also keep the invariant `Gameplay.Inv`.
 */
module WordGarden {
  import opened Text
  import opened Mask
  import opened Gameplay

  class ContentView {
    const wordsToGuess: seq<string>

    var wordsGuessed: int
    var wordsMissed: int
    var gameStatusMessage: string
    var currentWordIndex: int
    var wordToGuess: string
    var guessedLetter: string
    var lettersGuessed: string
    var guessesRemaining: int
    var imageName: string
    var playAgainHidden: bool
    var playAgainButtonLabel: string
    var revealedWord: string
    /** The sound cues played so far, oldest first. */
    var sounds: seq<string>

    /** The state fields as one value. */
    function Snapshot(): Game
      reads this
    {
      Game(wordsGuessed, wordsMissed, gameStatusMessage, currentWordIndex, wordToGuess,
           guessedLetter, lettersGuessed, guessesRemaining, imageName, playAgainHidden,
           playAgainButtonLabel, revealedWord, sounds)
    }

    ghost predicate Valid()
      reads this
    {
      Inv(wordsToGuess, Snapshot())
    }

    /** The field initialisers, then `.onAppear` on the first word. */
    constructor (words: seq<string>)
      requires WellFormedWords(words)
      ensures wordsToGuess == words
      ensures Snapshot() == Initial(words)
      ensures Valid()
    {
      wordsToGuess := words;
      wordsGuessed := 0;
      wordsMissed := 0;
      gameStatusMessage := Prompt;
      currentWordIndex := 0;
      wordToGuess := "";
      guessedLetter := "";
      lettersGuessed := "";
      guessesRemaining := MaximumGuesses;
      imageName := FlowerImage(MaximumGuesses);
      playAgainHidden := true;
      playAgainButtonLabel := AnotherWordLabel;
      revealedWord := "";
      sounds := [];
      new;
      OnAppear();
    }

    /** `.onAppear`: take the current word and show it fully masked. */
    method OnAppear()
      requires 0 <= currentWordIndex < |wordsToGuess|
      modifies this
      ensures Snapshot() == Appeared(wordsToGuess, old(Snapshot()))
    {
      wordToGuess := wordsToGuess[currentWordIndex];
      revealedWord := Blank(|wordsToGuess[currentWordIndex]|);
    }

    /**
     * The text field's binding stores `text`; its `.onChange` handler then
     * sanitises the field. The field is on screen only during a round.
     */
    method OnChange(text: string)
      requires Valid() && playAgainHidden
      modifies this
      ensures Snapshot() == Changed(old(Snapshot()), text)
      ensures Valid()
    {
      ChangedInv(wordsToGuess, Snapshot(), text);
      guessedLetter := text;
      SanitizeGuess();
    }

    /** The `.onChange` handler: trim non-letters, keep the last character, upper-case it. */
    method SanitizeGuess()
      modifies this
      ensures Snapshot() == old(Snapshot()).(guessedLetter := Sanitize(old(guessedLetter)))
    {
      guessedLetter := TrimNonLetters(guessedLetter);
      if |guessedLetter| == 0 {
        return;
      }
      guessedLetter := [ToUpper(guessedLetter[|guessedLetter| - 1])];
    }

    /** `guessALetter`: append the guess and recompute the mask. */
    method GuessALetter()
      requires 0 <= currentWordIndex < |wordsToGuess|
      modifies this
      ensures Snapshot() == LetterGuessed(wordsToGuess, old(Snapshot()))
    {
      lettersGuessed := lettersGuessed + guessedLetter;
      revealedWord := Reveal(wordsToGuess[currentWordIndex], lettersGuessed);
    }

    /** `updateGameplay`: charge a wrong guess, decide the round, offer a restart, clear the field. */
    method UpdateGameplay()
      modifies this
      ensures Snapshot() == GameplayUpdated(wordsToGuess, old(Snapshot()))
    {
      ChargeGuess();
      DecideRound();
      OfferRestart();
      guessedLetter := "";
    }

    /** A wrong guess costs one guess and wilts the flower; either way the matching cue plays. */
    method ChargeGuess()
      modifies this
      ensures Snapshot() == Charged(old(Snapshot()))
    {
      if !Contains(wordToGuess, guessedLetter) {
        guessesRemaining := guessesRemaining - 1;
        imageName := WiltImage(guessesRemaining);
        sounds := sounds + [IncorrectCue];
      } else {
        sounds := sounds + [CorrectCue];
      }
    }

    /** Won if no placeholder is left, else lost if no guess is left, else the round goes on. */
    method DecideRound()
      modifies this
      ensures Snapshot() == Decided(old(Snapshot()))
    {
      ghost var before := Snapshot();
      if !Contains(revealedWord, "_") {
        gameStatusMessage := WonMessage(|lettersGuessed|);
        wordsGuessed := wordsGuessed + 1;
        currentWordIndex := currentWordIndex + 1;
        playAgainHidden := false;
        sounds := sounds + [WordGuessedCue];
        assert Snapshot() == before.(gameStatusMessage := gameStatusMessage, wordsGuessed := wordsGuessed,
          currentWordIndex := currentWordIndex, playAgainHidden := false, sounds := sounds);
      } else if guessesRemaining == 0 {
        gameStatusMessage := LostMessage;
        wordsMissed := wordsMissed + 1;
        currentWordIndex := currentWordIndex + 1;
        playAgainHidden := false;
        sounds := sounds + [WordNotGuessedCue];
        assert Snapshot() == before.(gameStatusMessage := gameStatusMessage, wordsMissed := wordsMissed,
          currentWordIndex := currentWordIndex, playAgainHidden := false, sounds := sounds);
      } else {
        gameStatusMessage := ProgressMessage(|lettersGuessed|);
      }
    }

    /** After the last word the button offers a restart and the status says so. */
    method OfferRestart()
      modifies this
      ensures Snapshot() == RestartOffered(wordsToGuess, old(Snapshot()))
    {
      if currentWordIndex == |wordsToGuess| {
        playAgainButtonLabel := RestartGameLabel;
        gameStatusMessage := gameStatusMessage + RestartSuffix;
      }
    }

    /** `.onSubmit` and the "Guess A Letter" button: nothing happens while the field is empty. */
    method Submit()
      requires Valid() && playAgainHidden
      modifies this
      ensures Snapshot() == Submitted(wordsToGuess, old(Snapshot()))
      ensures Valid()
    {
      SubmittedInv(wordsToGuess, Snapshot());
      if guessedLetter == "" {
        return;
      }
      GuessALetter();
      UpdateGameplay();
    }

    /** The play-again button: restart after the last word, then start a round on the current word. */
    method PlayAgain()
      requires Valid() && !playAgainHidden
      modifies this
      ensures Snapshot() == PlayedAgain(wordsToGuess, old(Snapshot()))
      ensures Valid()
    {
      PlayedAgainInv(wordsToGuess, Snapshot());
      if currentWordIndex == |wordsToGuess| {
        currentWordIndex := 0;
        wordsGuessed := 0;
        wordsMissed := 0;
        playAgainButtonLabel := AnotherWordLabel;
      }
      StartRound();
    }

    /** Start a round on the current word. */
    method StartRound()
      requires 0 <= currentWordIndex < |wordsToGuess|
      modifies this
      ensures Snapshot() == RoundStarted(wordsToGuess, old(Snapshot()))
    {
      ghost var before := Snapshot();
      wordToGuess := wordsToGuess[currentWordIndex];
      revealedWord := Blank(|wordsToGuess[currentWordIndex]|);
      lettersGuessed := "";
      guessesRemaining := MaximumGuesses;
      imageName := FlowerImage(guessesRemaining);
      gameStatusMessage := Prompt;
      playAgainHidden := true;
      assert Snapshot() == before.(wordToGuess := wordToGuess, revealedWord := revealedWord,
        lettersGuessed := "", guessesRemaining := MaximumGuesses, imageName := imageName,
        gameStatusMessage := Prompt, playAgainHidden := true);
    }

    /** The "Words to Guess" figure: the words of the list not yet guessed or missed. */
    function WordsToGuessCount(): (n: int)
      reads this
      requires Valid()
      ensures 0 <= n <= |wordsToGuess|
      ensures n == 0 <==> currentWordIndex == |wordsToGuess|
    {
      |wordsToGuess| - (wordsGuessed + wordsMissed)
    }
  }
}
