/** The executioner's candidate pruner (`prune` in hangman.go): keeps the
  * corpus words, trimmed and upper-cased, that agree with the masked word
  * and the guessed letters. */
module Pruner {
  import opened Text
  import opened Game

  /** The test prune applies to one normalised word, one conjunct per way the
    * source rejects it. */
  predicate Keep(word: string, guessed: seq<char>, blanks: string)
  {
    // the word has the mask's length
    && |word| == |blanks|
    // a Blank stands for a letter A-Z
    && (forall i :: 0 <= i < |blanks| && blanks[i] == Blank ==> IsLetter(word[i]))
    // a shown character is at its place, and nowhere else unshown
    && (forall i :: 0 <= i < |blanks| && blanks[i] != Blank
          ==> word[i] == blanks[i] && Count(blanks, blanks[i]) == Count(word, blanks[i]))
    // a guessed letter missing from the mask is missing from the word
    && (forall k :: 0 <= k < |guessed| ==> guessed[k] in blanks || guessed[k] !in word)
  }

  /** Every corpus line in normal form, in corpus order. */
  function NormalizeAll(words: seq<string>): (r: seq<string>)
    ensures |r| == |words|
  {
    if words == [] then []
    else NormalizeAll(words[..|words| - 1]) + [Normalize(words[|words| - 1])]
  }

  /** The candidate list prune returns; there are never more entries than
    * corpus lines. */
  function Prune(words: seq<string>, guessed: seq<char>, blanks: string): (r: seq<string>)
    ensures |r| <= |words|
  {
    if words == [] then []
    else
      var rest := Prune(words[..|words| - 1], guessed, blanks);
      var word := Normalize(words[|words| - 1]);
      if Keep(word, guessed, blanks) then rest + [word] else rest
  }

  /** Every candidate is normal, has the mask's length and passes Keep. */
  lemma {:induction false} PruneKeeps(words: seq<string>, guessed: seq<char>, blanks: string)
    ensures forall w :: w in Prune(words, guessed, blanks) ==>
              IsNormal(w) && |w| == |blanks| && Keep(w, guessed, blanks)
  {
    if words != [] {
      PruneKeeps(words[..|words| - 1], guessed, blanks);
    }
  }

  /** A corpus line already in normal form is its own normal form. */
  lemma {:induction false} NormalInNormalizeAll(words: seq<string>, w: string)
    requires w in words && IsNormal(w)
    ensures w in NormalizeAll(words)
  {
    var init := words[..|words| - 1];
    if w == words[|words| - 1] {
      assert NormalizeAll(words) == NormalizeAll(init) + [w];
    } else {
      assert words == init + [words[|words| - 1]];
      NormalInNormalizeAll(init, w);
    }
  }

  /** A word is a candidate exactly when it is the normal form of some corpus
    * line and passes Keep. */
  lemma {:induction false} PruneMembers(words: seq<string>, guessed: seq<char>, blanks: string, w: string)
    ensures w in Prune(words, guessed, blanks) <==> w in NormalizeAll(words) && Keep(w, guessed, blanks)
  {
    if words != [] {
      var init := words[..|words| - 1];
      var last := Normalize(words[|words| - 1]);
      var rest := Prune(init, guessed, blanks);
      var all := NormalizeAll(words);
      PruneMembers(init, guessed, blanks, w);
      assert w in all <==> w in NormalizeAll(init) || w == last;
      if Keep(last, guessed, blanks) {
        assert Prune(words, guessed, blanks) == rest + [last];
      } else {
        assert Prune(words, guessed, blanks) == rest;
      }
    }
  }

  /** The candidates keep the corpus order: they are a subsequence of the
    * normalised corpus. */
  lemma {:induction false} PruneSubsequence(words: seq<string>, guessed: seq<char>, blanks: string)
    ensures IsSubsequence(Prune(words, guessed, blanks), NormalizeAll(words))
  {
    if words != [] {
      var init := words[..|words| - 1];
      var rest := Prune(init, guessed, blanks);
      var all := NormalizeAll(words);
      PruneSubsequence(init, guessed, blanks);
      assert all[..|all| - 1] == NormalizeAll(init);
      var r := Prune(words, guessed, blanks);
      if r != rest {
        assert r == rest + [all[|all| - 1]];
        assert r[..|r| - 1] == rest;
      }
    }
  }

  /** Pruning a candidate list again with the same guesses and mask changes nothing. */
  lemma {:induction false} PruneIdempotent(words: seq<string>, guessed: seq<char>, blanks: string)
    ensures Prune(Prune(words, guessed, blanks), guessed, blanks) == Prune(words, guessed, blanks)
  {
    if words != [] {
      var init := words[..|words| - 1];
      var rest := Prune(init, guessed, blanks);
      PruneIdempotent(init, guessed, blanks);
      var r := Prune(words, guessed, blanks);
      if r != rest {
        var w := r[|r| - 1];
        assert r == rest + [w];
        assert r[..|r| - 1] == rest;
      }
    }
  }

  /** A word that passes Keep has no guessed letter under a Blank: such a
    * letter would be either a miss or an extra occurrence of a shown letter. */
  lemma BlankSlotUnguessed(word: string, guessed: seq<char>, blanks: string, i: nat)
    requires Keep(word, guessed, blanks)
    requires i < |blanks| && blanks[i] == Blank
    ensures word[i] !in guessed
  {
    var c := word[i];
    if c in guessed {
      var k :| 0 <= k < |guessed| && guessed[k] == c;
      assert c in blanks;
      var j :| 0 <= j < |blanks| && blanks[j] == c;
      CountLt(blanks, word, c, i);
    }
  }

  /** The pruning test against a real mask: a word passes exactly when it
    * has no Blank of its own and would have shown the same mask as the
    * secret, had it been the secret. */
  lemma KeepIffSameMask(word: string, guessed: seq<char>, secret: string)
    ensures Keep(word, guessed, Mask(secret, guessed))
        <==> Blank !in word && Mask(word, guessed) == Mask(secret, guessed)
  {
    var b := Mask(secret, guessed);
    if Keep(word, guessed, b) {
      forall i | 0 <= i < |word|
        ensures word[i] != Blank && Mask(word, guessed)[i] == b[i]
      {
        if b[i] == Blank {
          BlankSlotUnguessed(word, guessed, b, i);
        }
      }
    }
    if Blank !in word && Mask(word, guessed) == b {
      forall i | 0 <= i < |b| && b[i] != Blank
        ensures Count(b, b[i]) == Count(word, b[i])
      {
        MaskCount(word, guessed, word[i]);
      }
      forall k | 0 <= k < |guessed| && guessed[k] in word
        ensures guessed[k] in b
      {
        var j :| 0 <= j < |word| && word[j] == guessed[k];
        assert b[j] == guessed[k];
      }
    }
  }

  /** The candidates are exactly the normalised corpus words that the secret's
    * mask cannot tell apart from the secret. */
  lemma PruneExact(words: seq<string>, guessed: seq<char>, secret: string, w: string)
    ensures w in Prune(words, guessed, Mask(secret, guessed))
        <==> w in NormalizeAll(words) && Blank !in w && Mask(w, guessed) == Mask(secret, guessed)
  {
    PruneMembers(words, guessed, Mask(secret, guessed), w);
    KeepIffSameMask(w, guessed, secret);
  }

  /** Soundness: pruning never drops the true secret when it is in the corpus. */
  lemma PruneSound(words: seq<string>, guessed: seq<char>, secret: string)
    requires Blank !in secret && secret in NormalizeAll(words)
    ensures secret in Prune(words, guessed, Mask(secret, guessed))
  {
    PruneExact(words, guessed, secret, secret);
  }

  /** The per-word loops of prune: the position loop, then the guessed-letter
    * loop, rejecting at the first failure. */
  method Survives(word: string, guessed: seq<char>, blanks: string) returns (ok: bool)
    ensures ok <==> Keep(word, guessed, blanks)
  {
    if |word| != |blanks| {
      return false;
    }
    for i := 0 to |blanks|
      invariant forall j :: 0 <= j < i && blanks[j] == Blank ==> IsLetter(word[j])
      invariant forall j :: 0 <= j < i && blanks[j] != Blank
                  ==> word[j] == blanks[j] && Count(blanks, blanks[j]) == Count(word, blanks[j])
    {
      var c := blanks[i];
      if c == Blank {
        if !IsLetter(word[i]) {
          return false;
        }
      } else {
        if c != word[i] {
          return false;
        }
        if Count(blanks, c) != Count(word, c) {
          return false;
        }
      }
    }
    for k := 0 to |guessed|
      invariant forall j :: 0 <= j < k ==> guessed[j] in blanks || guessed[j] !in word
    {
      var letter := guessed[k];
      if letter !in blanks && letter in word {
        return false;
      }
    }
    return true;
  }

  /** `prune`: normalises each corpus line and appends the ones that survive. */
  method PruneWords(words: seq<string>, guessed: seq<char>, blanks: string) returns (pruned: seq<string>)
    ensures pruned == Prune(words, guessed, blanks)
  {
    pruned := [];
    for i := 0 to |words|
      invariant pruned == Prune(words[..i], guessed, blanks)
    {
      var word := Upper(TrimSpace(words[i]));
      var ok := Survives(word, guessed, blanks);
      if ok {
        pruned := pruned + [word];
      }
      assert words[..i + 1][..i] == words[..i];
    }
    assert words[..|words|] == words;
  }
}
