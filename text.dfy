/**
 * Character and string helpers the game screen relies on: decimal rendering of
 * counters (Swift string interpolation of an `Int`), substring containment
 * (`String.contains`), and the text field's input sanitiser.
 * Letters are ASCII letters; see README for what that leaves out.
 */
module Text {

  // ---------------------------------------------------------------------------
  // Decimal rendering: "\(n)"
  // ---------------------------------------------------------------------------

  predicate IsDigit(c: char) {
    '0' <= c <= '9'
  }

  function DigitChar(d: nat): (c: char)
    requires d < 10
    ensures IsDigit(c)
  {
    ('0' as int + d) as char
  }

  function DigitValue(c: char): (d: nat)
    requires IsDigit(c)
    ensures d < 10 && DigitChar(d) == c
  {
    c as int - '0' as int
  }

  /** The decimal text of a non-negative integer, without leading zeros. */
  function NatToString(n: nat): (s: string)
    ensures |s| > 0
    ensures forall i :: 0 <= i < |s| ==> IsDigit(s[i])
    ensures |s| > 1 ==> s[0] != '0'
    decreases n
  {
    if n < 10 then [DigitChar(n)] else NatToString(n / 10) + [DigitChar(n % 10)]
  }

  /** Reads a string of decimal digits back as a number. */
  function ParseNat(s: string): nat
    requires forall i :: 0 <= i < |s| ==> IsDigit(s[i])
  {
    if |s| == 0 then 0 else 10 * ParseNat(s[..|s| - 1]) + DigitValue(s[|s| - 1])
  }

  /** Rendering a count and reading it back gives the count: the number shown is the number held. */
  lemma {:induction false} ParseNatToString(n: nat)
    ensures ParseNat(NatToString(n)) == n
    decreases n
  {
    var s := NatToString(n);
    if n >= 10 {
      assert s[..|s| - 1] == NatToString(n / 10);
      ParseNatToString(n / 10);
    }
  }

  /** Different counts are rendered differently. */
  lemma NatToStringInjective(m: nat, n: nat)
    requires NatToString(m) == NatToString(n)
    ensures m == n
  {
    ParseNatToString(m);
    ParseNatToString(n);
  }

  /** Swift's interpolation of an `Int`, with a minus sign for negative values. */
  function IntToString(n: int): string {
    if n < 0 then "-" + NatToString(-n) else NatToString(n)
  }

  // ---------------------------------------------------------------------------
  // String.contains(String)
  // ---------------------------------------------------------------------------

  predicate OccursAt(s: string, t: string, i: nat) {
    i + |t| <= |s| && s[i..i + |t|] == t
  }

  /** `s.contains(t)`: `t` occurs in `s` as a contiguous substring. */
  predicate Contains(s: string, t: string) {
    exists i: nat :: i <= |s| && OccursAt(s, t, i)
  }

  /** For a one-character needle, containment is plain membership. */
  lemma ContainsChar(s: string, c: char)
    ensures Contains(s, [c]) <==> c in s
  {
    if c in s {
      var i :| 0 <= i < |s| && s[i] == c;
      assert OccursAt(s, [c], i);
    }
    if Contains(s, [c]) {
      var i: nat :| i <= |s| && OccursAt(s, [c], i);
      assert s[i] == s[i..i + 1][0];
    }
  }

  // ---------------------------------------------------------------------------
  // Letters and the guess field's sanitiser
  // ---------------------------------------------------------------------------

  predicate IsLetter(c: char) {
    'A' <= c <= 'Z' || 'a' <= c <= 'z'
  }

  predicate IsUpperLetter(c: char) {
    'A' <= c <= 'Z'
  }

  /** `uppercased()` on a single ASCII character. */
  function ToUpper(c: char): (u: char)
    ensures IsLetter(c) ==> IsUpperLetter(u)
    ensures 'a' <= c <= 'z' ==> u as int == c as int - 32
    ensures !('a' <= c <= 'z') ==> u == c
  {
    if 'a' <= c <= 'z' then (c as int - 32) as char else c
  }

  /** A value the guess field can hold once sanitised: empty or one upper-case letter. */
  predicate IsGuess(s: string) {
    s == [] || (|s| == 1 && IsUpperLetter(s[0]))
  }

  /** How many characters at the start of `s` are not letters. */
  function LeadingNonLetters(s: string): (k: nat)
    ensures k <= |s|
    ensures forall i :: 0 <= i < k ==> !IsLetter(s[i])
    ensures k < |s| ==> IsLetter(s[k])
  {
    if |s| > 0 && !IsLetter(s[0]) then 1 + LeadingNonLetters(s[1..]) else 0
  }

  /** How many characters at the end of `s` are not letters. */
  function TrailingNonLetters(s: string): (k: nat)
    ensures k <= |s|
    ensures forall i :: |s| - k <= i < |s| ==> !IsLetter(s[i])
    ensures k < |s| ==> IsLetter(s[|s| - 1 - k])
  {
    if |s| > 0 && !IsLetter(s[|s| - 1]) then 1 + TrailingNonLetters(s[..|s| - 1]) else 0
  }

  /** Drops leading non-letters. */
  function TrimStart(s: string): string {
    s[LeadingNonLetters(s)..]
  }

  /** Drops trailing non-letters. */
  function TrimEnd(s: string): string {
    s[..|s| - TrailingNonLetters(s)]
  }

  /** `trimmingCharacters(in: .letters.inverted)`: non-letters removed from both ends. */
  function TrimNonLetters(s: string): string {
    TrimEnd(TrimStart(s))
  }

  /**
   * The guess field's change handler: trim non-letters from both ends, keep
   * the last character, upper-case it. The result is empty exactly when no
   * letter was typed, and otherwise is the upper-cased last letter typed.
   */
  function Sanitize(text: string): (g: string)
    ensures IsGuess(g)
    ensures g == [] <==> forall i :: 0 <= i < |text| ==> !IsLetter(text[i])
    ensures g != [] ==>
      exists k :: 0 <= k < |text| && IsLetter(text[k]) && g == [ToUpper(text[k])] &&
        forall j :: k < j < |text| ==> !IsLetter(text[j])
  {
    var t := TrimNonLetters(text);
    var lead := LeadingNonLetters(text);
    var u := text[lead..];
    var trail := TrailingNonLetters(u);
    assert t == u[..|u| - trail];
    if |t| == 0 then
      ""
    else
      var k := lead + |t| - 1;
      assert text[k] == u[|t| - 1] == t[|t| - 1];
      assert forall j :: k < j < |text| ==> !IsLetter(text[j]) by {
        forall j | k < j < |text|
          ensures !IsLetter(text[j])
        {
          assert text[j] == u[j - lead];
        }
      }
      [ToUpper(t[|t| - 1])]
  }

  /**
   * Assigning the sanitised value back to the field fires the handler again;
   * that second run changes nothing.
   */
  lemma SanitizeIdempotent(text: string)
    ensures Sanitize(Sanitize(text)) == Sanitize(text)
  {
    var g := Sanitize(text);
    if g != [] {
      assert IsLetter(g[0]);
      assert LeadingNonLetters(g) == 0 && TrailingNonLetters(g) == 0;
    }
  }
}
