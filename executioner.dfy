/** The executioner mode of hangman.go (playExecutioner): the program guesses
  * a secret the human chose. Each turn it prunes the candidate words, picks
  * the unguessed letter that the most candidates contain, and moves that
  * letter from the unguessed pool to the guessed letters. */
module Executioner {
  import opened Text
  import opened Game
  import opened Pruner

  /** strings.Contains(strings.ToUpper(word), letter). */
  predicate HasLetter(word: string, letter: char)
  {
    letter in Upper(word)
  }

  /** How many candidate words contain `letter` once upper-cased. */
  function Hits(words: seq<string>, letter: char): (n: nat)
    ensures n <= |words|
    ensures n == 0 <==> forall k :: 0 <= k < |words| ==> !HasLetter(words[k], letter)
  {
    if words == [] then 0
    else Hits(words[..|words| - 1], letter) + (if HasLetter(words[|words| - 1], letter) then 1 else 0)
  }

  /** The inner loop of the selection: counts the words holding `letter`. */
  method CountHits(words: seq<string>, letter: char) returns (count: nat)
    ensures count == Hits(words, letter)
  {
    count := 0;
    for k := 0 to |words|
      invariant count == Hits(words[..k], letter)
    {
      var word := Upper(words[k]);
      if letter in word {
        count := count + 1;
      }
      assert words[..k + 1][..k] == words[..k];
    }
    assert words[..|words|] == words;
  }

  /** The selection loop: the first letter of the pool (in its current
    * order) whose count beats every earlier one, starting from a maximum
    * of 0, so index 0 when no candidate contains any pool letter. */
  method SelectLetter(unguessed: seq<char>, words: seq<string>) returns (letter: char, best: nat)
    requires |unguessed| > 0
    ensures best < |unguessed| && letter == unguessed[best]
    ensures forall j :: 0 <= j < |unguessed| ==> Hits(words, unguessed[j]) <= Hits(words, letter)
    ensures forall j :: 0 <= j < best ==> Hits(words, unguessed[j]) < Hits(words, letter)
    ensures Hits(words, letter) == 0 ==> best == 0
  {
    var maxCount := 0;
    letter, best := unguessed[0], 0;
    for i := 0 to |unguessed|
      invariant best < |unguessed| && letter == unguessed[best]
      invariant i == 0 ==> best == 0 && maxCount == 0
      invariant i > 0 ==> best < i && maxCount == Hits(words, letter)
      invariant forall j :: 0 <= j < i ==> Hits(words, unguessed[j]) <= maxCount
      invariant forall j :: 0 <= j < best ==> Hits(words, unguessed[j]) < maxCount
    {
      var candidate := unguessed[i];
      var count := CountHits(words, candidate);
      if count > maxCount {
        maxCount, letter, best := count, candidate, i;
      }
    }
  }

  /** Removal from the pool as the source does it: the last element moves
    * into slot `i` and the slice is cut by one. */
  function SwapRemove(pool: seq<char>, i: nat): (r: seq<char>)
    requires i < |pool|
    ensures |r| == |pool| - 1
    ensures forall j :: 0 <= j < |r| ==> r[j] == if j == i then pool[|pool| - 1] else pool[j]
    ensures multiset(r) + multiset{pool[i]} == multiset(pool)
  {
    var last := |pool| - 1;
    var r := pool[i := pool[last]][..last];
    assert i < last ==> pool == pool[..i] + [pool[i]] + pool[i + 1..last] + [pool[last]];
    assert i < last ==> r == pool[..i] + [pool[last]] + pool[i + 1..last];
    assert i == last ==> pool == r + [pool[i]];
    r
  }

  /** The guessed letters and the unguessed pool split the alphabet between
    * them: together they hold every letter A-Z once and nothing else. */
  predicate Partition(guessed: seq<char>, unguessed: seq<char>)
  {
    NoDup(guessed + unguessed) && forall c :: c in guessed + unguessed <==> IsLetter(c)
  }

  /** What the partition gives: no letter twice on either side, no letter on
    * both sides, and between them exactly the letters A-Z. */
  lemma PartitionFacts(guessed: seq<char>, unguessed: seq<char>)
    requires Partition(guessed, unguessed)
    ensures NoDup(guessed) && NoDup(unguessed)
    ensures forall c :: c in guessed ==> c !in unguessed
    ensures forall c :: IsLetter(c) <==> c in guessed || c in unguessed
  {
    var all := guessed + unguessed;
    forall i, j | 0 <= i < j < |guessed|
      ensures guessed[i] != guessed[j]
    {
      assert all[i] == guessed[i] && all[j] == guessed[j];
    }
    forall i, j | 0 <= i < j < |unguessed|
      ensures unguessed[i] != unguessed[j]
    {
      assert all[|guessed| + i] == unguessed[i] && all[|guessed| + j] == unguessed[j];
    }
    forall c | c in guessed
      ensures c !in unguessed
    {
      var i :| 0 <= i < |guessed| && guessed[i] == c;
      forall j | 0 <= j < |unguessed|
        ensures unguessed[j] != c
      {
        assert all[i] == c && all[|guessed| + j] == unguessed[j];
      }
    }
  }

  /** A turn keeps the partition: the chosen letter leaves the pool and joins
    * the guessed letters. */
  lemma PartitionStep(guessed: seq<char>, unguessed: seq<char>, i: nat)
    requires Partition(guessed, unguessed) && i < |unguessed|
    ensures unguessed[i] !in guessed
    ensures Partition(guessed + [unguessed[i]], SwapRemove(unguessed, i))
  {
    PartitionFacts(guessed, unguessed);
    var after := guessed + [unguessed[i]] + SwapRemove(unguessed, i);
    assert multiset(after) == multiset(guessed) + multiset{unguessed[i]} + multiset(SwapRemove(unguessed, i));
    assert multiset(guessed + unguessed) == multiset(guessed) + multiset(unguessed);
    PermutationKeeps(guessed + unguessed, after);
    assert guessed + [unguessed[i]] + SwapRemove(unguessed, i) == after;
  }

  /** While the game goes on, the pool is not empty, so the source's
    * unguessedLetters[0] is always in range (for a secret without a literal Blank). */
  lemma PoolNonEmpty(secret: string, guessed: seq<char>, unguessed: seq<char>)
    requires Partition(guessed, unguessed) && Blank !in secret
    requires Continues(secret, guessed)
    ensures |unguessed| > 0
  {
    PartitionFacts(guessed, unguessed);
    if |unguessed| == 0 {
      WonStops(secret, guessed);
    }
  }

  /** The executioner's state across turns: the secret, the guessed letters,
    * the unguessed pool (a slice over a 26-slot array: its first `size`
    * slots) and the current candidate words. */
  class Guesser {
    const secret: string
    var guessed: seq<char>
    const unguessed: array<char>
    var size: nat
    var words: seq<string>

    ghost predicate Valid()
      reads this, unguessed
    {
      && unguessed.Length == |Alphabet|
      && size <= unguessed.Length
      && Partition(guessed, unguessed[..size])
    }

    /** The unguessedLetters slice. */
    ghost function Pool(): seq<char>
      reads this, unguessed
      requires size <= unguessed.Length
    {
      unguessed[..size]
    }

    /** hangman.go:76-77: nothing guessed, the pool is the whole alphabet in order. */
    constructor (secret: string, corpus: seq<string>)
      ensures Valid() && fresh(unguessed)
      ensures this.secret == secret && guessed == [] && words == corpus
      ensures unguessed[..size] == Alphabet
    {
      this.secret := secret;
      guessed := [];
      unguessed := new char[26](i requires 0 <= i < 26 => (65 + i) as char);
      size := 26;
      words := corpus;
      new;
      AlphabetLetters();
      assert unguessed[..size] == Alphabet;
      assert guessed + unguessed[..size] == Alphabet;
    }

    /** One pass of the loop body: prune with the current mask, choose a
      * letter, append it to the guessed letters and swap-remove it from the pool. */
    method Turn() returns (letter: char, best: nat)
      requires Valid() && size > 0
      modifies this, unguessed
      ensures Valid()
      ensures words == Prune(old(words), old(guessed), Mask(secret, old(guessed)))
      ensures best < old(size) && letter == old(Pool())[best]
      ensures letter !in old(guessed)
      ensures forall j :: 0 <= j < old(size) ==> Hits(words, old(Pool())[j]) <= Hits(words, letter)
      ensures forall j :: 0 <= j < best ==> Hits(words, old(Pool())[j]) < Hits(words, letter)
      ensures guessed == old(guessed) + [letter]
      ensures size == old(size) - 1 && Pool() == SwapRemove(old(Pool()), best)
    {
      var blanks := GenerateBlanks(secret, guessed);
      words := PruneWords(words, guessed, blanks);
      var pool := unguessed[..size];
      assert pool == old(Pool());
      letter, best := SelectLetter(pool, words);
      PartitionStep(guessed, pool, best);
      guessed := guessed + [letter];
      RemoveAt(best);
    }

    /** hangman.go:110-111: the last slot of the slice moves into slot `i`, and
      * the slice is cut by one. */
    method RemoveAt(i: nat)
      requires size <= unguessed.Length && i < size
      modifies this`size, unguessed
      ensures size == old(size) - 1 && Pool() == SwapRemove(old(Pool()), i)
    {
      ghost var pool := unguessed[..size];
      unguessed[i] := unguessed[size - 1];
      size := size - 1;
      assert unguessed[..size] == SwapRemove(pool, i);
    }

    /** The loop of playExecutioner: turns until drawAndCheck says the game
      * is over. It ends with the game over, and the secret, when it is a
      * corpus word, is never pruned away. */
    method Play()
      requires Valid() && Blank !in secret
      modifies this, unguessed
      ensures Valid() && !Continues(secret, guessed)
      ensures old(guessed) <= guessed
      ensures secret in NormalizeAll(old(words)) ==> secret in NormalizeAll(words)
    {
      var going := DrawAndCheck(guessed, secret);
      while going
        invariant Valid() && (going <==> Continues(secret, guessed))
        invariant old(guessed) <= guessed
        invariant secret in NormalizeAll(old(words)) ==> secret in NormalizeAll(words)
        decreases size
      {
        PoolNonEmpty(secret, guessed, unguessed[..size]);
        ghost var before, had := words, guessed;
        var _, _ := Turn();
        if secret in NormalizeAll(before) {
          PruneSound(before, had, secret);
          PruneKeeps(before, had, Mask(secret, had));
          NormalInNormalizeAll(words, secret);
        }
        going := DrawAndCheck(guessed, secret);
      }
    }
  }

  /** playExecutioner from the point the secret and the corpus are known:
    * the game always finishes, no letter is guessed twice, every guess is a
    * letter A-Z, and a secret taken from the corpus stays a candidate. */
  method PlayExecutioner(secret: string, corpus: seq<string>) returns (guessed: seq<char>, candidates: seq<string>)
    requires Blank !in secret
    ensures !Continues(secret, guessed)
    ensures NoDup(guessed) && forall k :: 0 <= k < |guessed| ==> IsLetter(guessed[k])
    ensures secret in NormalizeAll(corpus) ==> secret in NormalizeAll(candidates)
  {
    var game := new Guesser(secret, corpus);
    game.Play();
    guessed, candidates := game.guessed, game.words;
    PartitionFacts(guessed, game.unguessed[..game.size]);
  }
}
