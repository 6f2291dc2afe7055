/** The game-status rules every mode shares (hangman.go): the masked word
  * of generateBlanks and drawAndCheck, the wrong-guess count, the test that
  * decides whether the game goes on, and the human guesser's acceptance rule.
  * Guessed letters are a sequence of characters: every entry the program
  * appends to guessedLetters is a one-character string. */
module Game {
  import opened Text

  /** The placeholder written for a letter not yet guessed. */
  const Blank: char := '_'

  /** The sixth wrong guess hangs the man. */
  const MaxWrong: nat := 6

  /** The constant `alphabet`, and the executioner's initial unguessed pool. */
  const Alphabet: string := "ABCDEFGHIJKLMNOPQRSTUVWXYZ"

  /** `strings.Contains(alphabet, string(c))`. */
  predicate IsLetter(c: char)
  {
    'A' <= c <= 'Z'
  }

  lemma AlphabetLetters()
    ensures |Alphabet| == 26 && forall i :: 0 <= i < 26 ==> Alphabet[i] as int == 65 + i
    ensures forall c :: c in Alphabet <==> IsLetter(c)
    ensures NoDup(Alphabet)
  {
    forall c | IsLetter(c)
      ensures c in Alphabet
    {
      assert Alphabet[c as int - 65] == c;
    }
  }

  /** What one position of the masked word shows. */
  function Reveal(c: char, guessed: seq<char>): char
  {
    if c in guessed || !IsLetter(c) then c else Blank
  }

  /** The masked word: each character of the secret, or Blank for a letter
    * that has not been guessed. */
  function Mask(secret: string, guessed: seq<char>): string
  {
    seq(|secret|, i requires 0 <= i < |secret| => Reveal(secret[i], guessed))
  }

  /** The mask has the secret's length; each position shows the secret's
    * character or a Blank, and a Blank exactly where the secret has an
    * unguessed letter or a Blank of its own. */
  lemma MaskShape(secret: string, guessed: seq<char>)
    ensures |Mask(secret, guessed)| == |secret|
    ensures forall i :: 0 <= i < |secret| ==>
              Mask(secret, guessed)[i] == secret[i] || Mask(secret, guessed)[i] == Blank
    ensures forall i :: 0 <= i < |secret| ==>
              (Mask(secret, guessed)[i] == Blank <==>
                 (secret[i] == Blank || (IsLetter(secret[i]) && secret[i] !in guessed)))
  {
  }

  /** Round trip: the mask equals the secret exactly when every letter of the
    * secret has been guessed. */
  lemma MaskComplete(secret: string, guessed: seq<char>)
    ensures Mask(secret, guessed) == secret
        <==> forall i :: 0 <= i < |secret| && IsLetter(secret[i]) ==> secret[i] in guessed
  {
    var m := Mask(secret, guessed);
    if m == secret {
      forall i | 0 <= i < |secret| && IsLetter(secret[i])
        ensures secret[i] in guessed
      {
        assert m[i] == secret[i];
      }
    }
  }

  /** The mask still has a Blank exactly when some letter of the secret is
    * unguessed (for a secret without a literal Blank). */
  lemma MaskHasBlank(secret: string, guessed: seq<char>)
    requires Blank !in secret
    ensures Blank in Mask(secret, guessed)
        <==> exists i :: 0 <= i < |secret| && IsLetter(secret[i]) && secret[i] !in guessed
  {
    var m := Mask(secret, guessed);
    if Blank in m {
      var i :| 0 <= i < |m| && m[i] == Blank;
      assert IsLetter(secret[i]) && secret[i] !in guessed;
    }
    if exists i :: 0 <= i < |secret| && IsLetter(secret[i]) && secret[i] !in guessed {
      var i :| 0 <= i < |secret| && IsLetter(secret[i]) && secret[i] !in guessed;
      assert m[i] == Blank;
    }
  }

  /** More guesses only reveal more: a shown position stays shown. */
  lemma MaskMonotone(secret: string, guessed: seq<char>, more: seq<char>)
    ensures |Mask(secret, guessed + more)| == |Mask(secret, guessed)|
    ensures forall i :: 0 <= i < |secret| && Mask(secret, guessed)[i] != Blank
              ==> Mask(secret, guessed + more)[i] == Mask(secret, guessed)[i]
  {
    forall i | 0 <= i < |secret| && Mask(secret, guessed)[i] != Blank
      ensures Mask(secret, guessed + more)[i] == secret[i]
    {
      if secret[i] in guessed {
        var k :| 0 <= k < |guessed| && guessed[k] == secret[i];
        assert (guessed + more)[k] == secret[i];
      }
    }
  }

  /** A revealed character occurs as often in the mask as in the secret. */
  lemma MaskCount(secret: string, guessed: seq<char>, c: char)
    requires c != Blank && (c in guessed || !IsLetter(c))
    ensures Count(Mask(secret, guessed), c) == Count(secret, c)
  {
    var m := Mask(secret, guessed);
    CountLe(m, secret, c);
    CountLe(secret, m, c);
  }

  /** The guessed letters that do not occur in the secret, in guessing order
    * (the wrongLetters slice of drawAndCheck). */
  function WrongLetters(secret: string, guessed: seq<char>): (r: seq<char>)
    ensures |r| <= |guessed|
    ensures forall c :: c in r <==> c in guessed && c !in secret
  {
    if guessed == [] then []
    else
      var rest := WrongLetters(secret, guessed[..|guessed| - 1]);
      var c := guessed[|guessed| - 1];
      assert guessed == guessed[..|guessed| - 1] + [c];
      if c in secret then rest else rest + [c]
  }

  /** numWrong of drawAndCheck. */
  function WrongCount(secret: string, guessed: seq<char>): nat
  {
    |WrongLetters(secret, guessed)|
  }

  /** One more guess adds one to the count when it misses and nothing when it hits. */
  lemma WrongCountAppend(secret: string, guessed: seq<char>, c: char)
    ensures WrongCount(secret, guessed + [c]) == WrongCount(secret, guessed) + (if c in secret then 0 else 1)
  {
    assert (guessed + [c])[..|guessed|] == guessed;
  }

  /** The wrong-guess count never decreases as letters are appended. */
  lemma {:induction false} WrongCountMonotone(secret: string, guessed: seq<char>, more: seq<char>)
    ensures WrongCount(secret, guessed) <= WrongCount(secret, guessed + more)
    decreases |more|
  {
    if more == [] {
      assert guessed + more == guessed;
    } else {
      var init := more[..|more| - 1];
      WrongCountMonotone(secret, guessed, init);
      assert guessed + more == (guessed + init) + [more[|more| - 1]];
      WrongCountAppend(secret, guessed + init, more[|more| - 1]);
    }
  }

  /** The value drawAndCheck returns: fewer than six misses and a Blank left. */
  predicate Continues(secret: string, guessed: seq<char>)
  {
    WrongCount(secret, guessed) < MaxWrong && Blank in Mask(secret, guessed)
  }

  /** Once every letter of the secret is guessed, the game is over. */
  lemma WonStops(secret: string, guessed: seq<char>)
    requires Blank !in secret
    requires forall i :: 0 <= i < |secret| && IsLetter(secret[i]) ==> secret[i] in guessed
    ensures !Continues(secret, guessed)
  {
    var m := Mask(secret, guessed);
    forall i | 0 <= i < |m|
      ensures m[i] != Blank
    {
      assert m[i] == secret[i];
    }
  }

  /** A running game that a guess ends with a Blank still showing ended on the
    * sixth miss, and that guess was the miss. */
  lemma LostOnSixthMiss(secret: string, guessed: seq<char>, c: char)
    requires Continues(secret, guessed)
    requires !Continues(secret, guessed + [c]) && Blank in Mask(secret, guessed + [c])
    ensures c !in secret && WrongCount(secret, guessed + [c]) == MaxWrong
  {
    WrongCountAppend(secret, guessed, c);
  }

  /** `contains`: a linear search of the slice. */
  method Contains(slice: seq<char>, item: char) returns (found: bool)
    ensures found <==> item in slice
  {
    for i := 0 to |slice|
      invariant item !in slice[..i]
    {
      if slice[i] == item {
        return true;
      }
    }
    return false;
  }

  /** `generateBlanks`: builds the masked word one character at a time. */
  method GenerateBlanks(secret: string, guessed: seq<char>) returns (blanks: string)
    ensures blanks == Mask(secret, guessed)
  {
    blanks := "";
    for i := 0 to |secret|
      invariant blanks == Mask(secret[..i], guessed)
    {
      var letter := secret[i];
      var seen := Contains(guessed, letter);
      if seen || !IsLetter(letter) {
        blanks := blanks + [letter];
      } else {
        blanks := blanks + [Blank];
      }
    }
    assert secret[..|secret|] == secret;
  }

  /** `drawAndCheck` without its drawing: counts the misses, builds the mask
    * inline, and tells whether the game goes on. */
  method DrawAndCheck(guessed: seq<char>, secretWord: string) returns (going: bool)
    ensures going <==> Continues(secretWord, guessed)
  {
    var wrongLetters: seq<char> := [];
    for i := 0 to |guessed|
      invariant wrongLetters == WrongLetters(secretWord, guessed[..i])
    {
      var letter := guessed[i];
      if letter !in secretWord {
        wrongLetters := wrongLetters + [letter];
      }
      assert guessed[..i + 1][..i] == guessed[..i];
    }
    assert guessed[..|guessed|] == guessed;

    var blanks: string := [];
    for i := 0 to |secretWord|
      invariant blanks == Mask(secretWord[..i], guessed)
    {
      var letter := secretWord[i];
      var seen := Contains(guessed, letter);
      if seen || !IsLetter(letter) {
        blanks := blanks + [letter];
      } else {
        blanks := blanks + [Blank];
      }
    }
    assert secretWord[..|secretWord|] == secretWord;

    var numWrong := |wrongLetters|;
    going := numWrong < MaxWrong && Blank in blanks;
  }

  /** Go's len counts bytes: a string has length 1 exactly when it is one
    * ASCII character. */
  predicate IsOneByte(s: string)
  {
    |s| == 1 && s[0] as int < 0x80
  }

  /** One step of humanGuesserLoop: the input is upper-cased and appended only
    * when it is a single byte that has not been guessed before. Any single
    * character is accepted, not only a letter. */
  function RecordGuess(guessed: seq<char>, input: string): (r: seq<char>)
    ensures NoDup(guessed) ==> NoDup(r)
    ensures |r| == |guessed| + 1 <==> IsOneByte(input) && UpperChar(input[0]) !in guessed
    ensures r == guessed || (|input| == 1 && r == guessed + [UpperChar(input[0])])
  {
    var guess := Upper(input);
    var seen := |guess| == 1 && guess[0] in guessed;
    if !seen && IsOneByte(guess) then guessed + [guess[0]] else guessed
  }

  /** The guessed letters after a run of inputs, from an empty start. */
  function Replay(inputs: seq<string>): seq<char>
  {
    if inputs == [] then []
    else RecordGuess(Replay(inputs[..|inputs| - 1]), inputs[|inputs| - 1])
  }

  /** The game went on before each of the first `n` inputs. */
  predicate ContinuedThrough(secret: string, inputs: seq<string>, n: nat)
    requires n <= |inputs|
  {
    forall k :: 0 <= k < n ==> Continues(secret, Replay(inputs[..k]))
  }

  lemma ContinuedStep(secret: string, inputs: seq<string>, n: nat)
    requires n < |inputs| && ContinuedThrough(secret, inputs, n)
    requires Continues(secret, Replay(inputs[..n]))
    ensures ContinuedThrough(secret, inputs, n + 1)
  {
  }

  /** `humanGuesserLoop`, reading its lines from `inputs`: it stops when the
    * game is over or the input runs out. */
  method HumanGuesserLoop(secret: string, inputs: seq<string>) returns (guessed: seq<char>, used: nat)
    ensures used <= |inputs| && guessed == Replay(inputs[..used])
    ensures NoDup(guessed)
    ensures used < |inputs| ==> !Continues(secret, guessed)
    ensures forall k :: 0 <= k < used ==> Continues(secret, Replay(inputs[..k]))
  {
    guessed, used := [], 0;
    var going := DrawAndCheck(guessed, secret);
    while going && used < |inputs|
      invariant used <= |inputs| && guessed == Replay(inputs[..used])
      invariant going <==> Continues(secret, guessed)
      invariant NoDup(guessed)
      invariant ContinuedThrough(secret, inputs, used)
      decreases |inputs| - used
    {
      ContinuedStep(secret, inputs, used);
      guessed := RecordGuess(guessed, inputs[used]);
      assert inputs[..used + 1][..used] == inputs[..used];
      used := used + 1;
      going := DrawAndCheck(guessed, secret);
    }
  }
}
