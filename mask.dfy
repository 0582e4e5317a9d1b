/**
 * The masked word shown on screen: one cell per letter of the hidden word,
 * the letter itself once it has been guessed and an underscore otherwise,
 * the cells separated by single spaces.
 */
module Mask {

  /** One cell of the mask. */
  function Cell(c: char, guessed: string): char {
    if c in guessed then c else '_'
  }

  /**
   * `joined(separator: " ")` over one-character strings: the cells sit at
   * the even positions and a space at every odd one.
   */
  function Join(cells: seq<char>): (s: string)
    ensures |s| == if |cells| == 0 then 0 else 2 * |cells| - 1
    ensures forall k :: 0 <= k < |s| ==> s[k] == if k % 2 == 0 then cells[k / 2] else ' '
  {
    if |cells| <= 1 then
      cells
    else
      var rest := Join(cells[1..]);
      var s := [cells[0], ' '] + rest;
      assert forall k :: 2 <= k < |s| ==> s[k] == rest[k - 2];
      s
  }

  /** The letters of `word`, each replaced by `_` unless it occurs in `guessed`. */
  function Cells(word: string, guessed: string): seq<char> {
    seq(|word|, i requires 0 <= i < |word| => Cell(word[i], guessed))
  }

  /** `word.map { guessed.contains($0) ? "\($0)" : "_" }.joined(separator: " ")` */
  function Reveal(word: string, guessed: string): string {
    Join(Cells(word, guessed))
  }

  /** `Array(repeating: "_", count: n).joined(separator: " ")` */
  function Blank(n: nat): string {
    Join(seq(n, _ => '_'))
  }

  /** Every letter of `word` has been guessed. */
  predicate AllGuessed(word: string, guessed: string) {
    forall i :: 0 <= i < |word| ==> word[i] in guessed
  }

  /** Position `k` of the revealed word: a letter cell at even `k`, a space at odd `k`. */
  lemma RevealAt(word: string, guessed: string, k: nat)
    requires k < |Reveal(word, guessed)|
    ensures |Reveal(word, guessed)| == 2 * |word| - 1
    ensures k % 2 == 0 ==>
      k / 2 < |word| && Reveal(word, guessed)[k] == (if word[k / 2] in guessed then word[k / 2] else '_')
    ensures k % 2 == 1 ==> Reveal(word, guessed)[k] == ' '
  {
  }

  /** A new round shows one underscore per letter, whatever the word. */
  lemma {:induction false} BlankIsNothingRevealed(word: string)
    ensures Reveal(word, "") == Blank(|word|)
  {
    assert Cells(word, "") == seq(|word|, _ => '_');
  }

  /**
   * The win test: no underscore is left exactly when every letter of the word
   * has been guessed (for a word that has no underscore of its own).
   */
  lemma {:induction false} SolvedIffAllGuessed(word: string, guessed: string)
    requires '_' !in word
    ensures '_' !in Reveal(word, guessed) <==> AllGuessed(word, guessed)
  {
    var r := Reveal(word, guessed);
    var cells := Cells(word, guessed);
    if AllGuessed(word, guessed) {
      forall k | 0 <= k < |r|
        ensures r[k] != '_'
      {
        if k % 2 == 0 {
          assert r[k] == cells[k / 2] == word[k / 2];
        }
      }
    } else {
      var i :| 0 <= i < |word| && word[i] !in guessed;
      assert r[2 * i] == cells[2 * i / 2] == '_';
    }
  }

  /**
   * Guessing more letters never hides one already shown: a cell that shows a
   * letter shows the same letter once further letters are guessed.
   */
  lemma {:induction false} RevealMonotone(word: string, before: string, after: string)
    requires forall c :: c in before ==> c in after
    ensures |Reveal(word, after)| == |Reveal(word, before)|
    ensures forall k :: 0 <= k < |Reveal(word, before)| && Reveal(word, before)[k] != '_' ==>
      Reveal(word, after)[k] == Reveal(word, before)[k]
  {
    var b, a := Reveal(word, before), Reveal(word, after);
    forall k | 0 <= k < |b| && b[k] != '_'
      ensures a[k] == b[k]
    {
      RevealAt(word, before, k);
      RevealAt(word, after, k);
    }
  }
}
