# Hangman, modelled in Dafny

A model of the game logic of `hangman.go`, a terminal hangman game with three modes. The
model covers the rules all modes share, the human guesser's acceptance rule and the
executioner mode, where the program guesses a word the human chose:

- **the masked word** (`generateBlanks`, and the same rule inline in `drawAndCheck`): a
  character of the secret is shown when it has been guessed or is not a letter A-Z;
  otherwise it is shown as `_`;
- **the game status** (`drawAndCheck`): the number of guessed letters missing from the
  secret, and the rule that the game goes on while there are fewer than six of them and
  the mask still shows a `_`;
- **human guesses** (`humanGuesserLoop`): an input is upper-cased and recorded only if it
  is one byte long and has not been guessed before;
- **candidate pruning** (`prune`): every corpus line is trimmed and upper-cased, and kept
  only if it fits the mask and the guessed letters;
- **the executioner's turn**: prune, then pick the unguessed letter that the most
  candidates contain, then move it from the unguessed pool to the guessed letters by
  swap-with-last removal.

Files:

- `text.dfy` (module `Text`): `strings.TrimSpace`, `strings.ToUpper`, `strings.Count`, and
  facts about duplicate-free sequences and subsequences.
- `game.dfy` (module `Game`): the mask, the wrong-guess count, the game status,
  `contains`, `generateBlanks`, `drawAndCheck` and the human guesser loop.
- `pruner.dfy` (module `Pruner`): the per-word test `Keep`, the pure `Prune`, and the
  `prune` loops proved equal to it. Its main results are exactness and soundness: the
  candidates are exactly the normalised corpus words that contain no `_` and that the
  secret's mask cannot tell apart from the secret, so the true secret is never pruned away.
- `executioner.dfy` (module `Executioner`): letter selection, swap removal, and the class
  `Guesser`. Its fields hold the guessed letters, the unguessed pool (a 26-slot array with
  a live length) and the candidate words. The class keeps the invariant that the two
  pools split the alphabet between them.

Ties in letter selection go to the earliest position in the current unguessed slice
(hangman.go:94-106). Swap removal moves the last letter into the freed slot
(hangman.go:110-111), so the slice does not stay alphabetical in general: while it is in
order, removing any slot except the last two moves a later letter in front of earlier ones.
`Executioner.SelectLetter` promises the lowest index in the current pool, and
`Executioner.Guesser.Turn` states the pool after the swap exactly.

## Model

| member | source | states |
|---|---|---|
| Game.AlphabetLetters | hangman.go:15 | the alphabet constant holds each of the 26 letters A-Z exactly once, in order, and nothing else |
| Game.IsLetter | hangman.go:161 | `strings.Contains(alphabet, string(c))`: the character is a letter A-Z (the same test as at lines 238 and 268) |
| Game.Reveal | hangman.go:268-272 | one position of the mask: the character itself when it has been guessed or is not a letter A-Z, `_` otherwise |
| Game.Mask | hangman.go:263-276 | the masked word, one Reveal per character of the secret, the same rule drawAndCheck applies inline |
| Game.MaskShape | hangman.go:263-276 | the mask has the secret's length; each position shows the secret's character or `_`, and `_` exactly where the secret has an unguessed letter A-Z (or a `_` of its own) |
| Game.MaskComplete | hangman.go:263-276 | the mask equals the secret if and only if every letter A-Z of the secret has been guessed |
| Game.MaskHasBlank | hangman.go:210-216 | for a secret without `_`, the mask shows a `_` if and only if some letter of the secret is unguessed |
| Game.MaskMonotone | hangman.go:263-276 | more guesses never hide a position that was shown |
| Game.MaskCount | hangman.go:248 | a character the mask reveals occurs as often in the mask as in the secret |
| Game.WrongLetters | hangman.go:151-156 | the wrong letters are exactly the guessed letters absent from the secret, and there are no more of them than guesses |
| Game.WrongCount | hangman.go:170 | numWrong: how many wrong letters there are |
| Game.Continues | hangman.go:216 | the value drawAndCheck returns: fewer than six misses and a `_` in the mask |
| Game.WrongCountAppend | hangman.go:152-156 | one more guess adds one miss if it is absent from the secret and none otherwise |
| Game.WrongCountMonotone | hangman.go:170 | the wrong-guess count never decreases as guesses are appended |
| Game.WonStops | hangman.go:210-216 | once every letter of the secret is guessed, the game does not go on |
| Game.LostOnSixthMiss | hangman.go:206-216 | a guess that ends a running game while a `_` is still showing is a miss, and the count is then exactly six |
| Game.Contains | hangman.go:278-285 | the linear search returns true if and only if the item is in the slice |
| Game.GenerateBlanks | hangman.go:263-276 | the string built character by character is the mask |
| Game.DrawAndCheck | hangman.go:150-216 | returns true if and only if fewer than six guesses miss the secret and the mask shows a `_` |
| Game.IsOneByte | hangman.go:128 | `len(guess) == 1` with Go's byte length: one ASCII character |
| Game.RecordGuess | hangman.go:127-130 | the guesses grow by one exactly when the input is one byte and, upper-cased, not yet guessed; the only thing ever appended is that upper-cased character; the guesses stay duplicate-free |
| Game.Replay | hangman.go:123-130 | the guessedLetters that humanGuesserLoop builds from an empty start by applying the acceptance rule to each value `fmt.Scanln` stored in `guess`, in turn |
| Game.HumanGuesserLoop | hangman.go:122-133 | the loop records the guesses of the inputs it read, in order; it stops early only when the game is over; the game was still going before each input it read; the guesses stay duplicate-free |
| Text.IsSpace | hangman.go:230 | the white-space set of Go's `unicode.IsSpace`, which `strings.TrimSpace` cuts |
| Text.UpperChar | hangman.go:231 | `ToUpper` on one character, ASCII letters only |
| Text.Upper | hangman.go:231 | `strings.ToUpper`, character by character |
| Text.LeadingSpaces | hangman.go:230 | the count of spaces at the start of the word: all of them are spaces and the next character is not |
| Text.TextEnd | hangman.go:230 | where the word's text ends: everything after it is a space and the character before it is not |
| Text.TrimSpace | hangman.go:230 | the result has no space at either end, it is the input with only leading and trailing spaces removed, and an already trimmed input is kept |
| Text.Normalize | hangman.go:230-231 | the normalised word is trimmed and upper-case, no longer than the input, and a normal word is its own normal form |
| Text.Count | hangman.go:248 | the count is at most the length and is zero exactly when the character is absent |
| Pruner.Keep | hangman.go:233-256 | the tests prune applies to a normalised word: the mask's length, a letter A-Z under every `_`, every shown character in place and occurring as often as in the mask, and no guessed letter that the mask lacks |
| Pruner.Prune | hangman.go:224-261 | the candidate list: the normalised corpus lines that pass Keep, in corpus order, never more than the corpus lines |
| Pruner.NormalizeAll | hangman.go:229-231 | one normalised word per corpus line |
| Pruner.PruneKeeps | hangman.go:233-257 | every candidate is trimmed and upper-case, has the mask's length and passes every test of prune |
| Pruner.PruneMembers | hangman.go:224-261 | a word is a candidate if and only if it is the normal form of a corpus line and passes every test |
| Pruner.PruneSubsequence | hangman.go:257 | the candidates keep corpus order: they are a subsequence of the normalised corpus |
| Pruner.PruneIdempotent | hangman.go:224-261 | pruning the candidates again with the same guesses and mask changes nothing |
| Pruner.BlankSlotUnguessed | hangman.go:236-256 | a word that passes has no guessed letter under a `_` |
| Pruner.KeepIffSameMask | hangman.go:236-276 | against the secret's mask, a word passes if and only if it has no `_` and would show the same mask as the secret |
| Pruner.PruneExact | hangman.go:224-276 | the candidates are exactly the normalised corpus words without `_` whose mask equals the secret's |
| Pruner.PruneSound | hangman.go:224-276 | a secret without `_` that is a normalised corpus word always survives pruning |
| Pruner.NormalInNormalizeAll | hangman.go:230-231 | a corpus line already in normal form appears in the normalised corpus |
| Pruner.Survives | hangman.go:233-256 | the per-word loops accept a word if and only if it passes every test |
| Pruner.PruneWords | hangman.go:224-261 | the accumulated list is the candidate list |
| Executioner.HasLetter | hangman.go:97-98 | the upper-cased word contains the letter |
| Executioner.Hits | hangman.go:95-101 | the count of words holding a letter is at most the number of words, and zero exactly when no word holds it |
| Executioner.CountHits | hangman.go:95-101 | the inner counting loop returns that count |
| Executioner.SelectLetter | hangman.go:91-107 | the chosen letter is in the pool; no pool letter has a higher count; every earlier pool letter has a strictly lower count; index 0 when the best count is 0 |
| Executioner.SwapRemove | hangman.go:110-111 | the pool shrinks by one, the last letter moves into the freed slot, nothing else moves, and exactly the chosen letter leaves |
| Executioner.Partition | hangman.go:76-77 | the guessed letters and the unguessed pool together hold every letter A-Z exactly once and nothing else |
| Executioner.PartitionFacts | hangman.go:76-77 | while the two pools split the alphabet, neither repeats a letter, no letter is in both, and together they hold exactly A-Z |
| Executioner.PartitionStep | hangman.go:109-111 | moving a pool letter to the guesses keeps the split; that letter had not been guessed |
| Executioner.PoolNonEmpty | hangman.go:92 | while the game goes on, the pool is not empty, so its first slot can be read |
| Executioner.Guesser.constructor | hangman.go:76-77 | nothing is guessed and the pool is the alphabet in order |
| Executioner.Guesser.RemoveAt | hangman.go:110-111 | the array-backed pool becomes the swap-removed pool |
| Executioner.Guesser.Turn | hangman.go:79-111 | the candidates are pruned with the current mask; the chosen letter is the selection's argmax over the pool and was not yet guessed; it is appended to the guesses; the pool is swap-removed; the split of the alphabet is kept |
| Executioner.Guesser.Play | hangman.go:78-114 | turns run until the game is over; guesses only grow; a secret that is a normalised corpus word remains a candidate |
| Executioner.PlayExecutioner | hangman.go:72-115 | the game always ends; no letter is guessed twice; every guess is a letter A-Z; a corpus secret is never pruned away |

## Left out

- `main`, its flag parsing and mode dispatch (hangman.go:20-46): command-line plumbing.
- `clear`, every `fmt.Print*`, the gallows drawing, the listing of possible words and the
  joining of the mask with spaces for display: output only. The `_` test on the joined mask is
  modelled as a test on the mask itself, because the joining spaces are not `_`.
- `time.Sleep` between executioner turns: timing and floating point.
- `playGuesser`: its random choice of secret uses `rand.Intn`. Each word of the wrong length
  is removed, so when no word has the target length the list empties and `rand.Intn(0)`
  panics. The human loop it hands over to is modelled.
- `inputWord` and the `fmt.Scanln` reads: interactive input. The secret is a parameter.
  Each element of the finite sequence `inputs` is the string `fmt.Scanln` stores in `guess`
  (hangman.go:126), not a raw line: Scanln's tokenising (skipping blanks, stopping at the
  first one after a token) is not modelled. `Game.HumanGuesserLoop` also stops when that
  sequence runs out.
- `getWords` and the embedded word file: the corpus is a parameter of type `seq<string>`.
- `Text.Upper` and `Text.UpperChar`: ASCII case mapping only. Go's `strings.ToUpper` also
  maps other Unicode letters, and a few of them map to one-byte letters. `Game.IsOneByte`
  counts a string as one byte when it is one ASCII character, which matches Go's byte length
  under this assumption.
- Characters are Unicode code points: prune's `[]rune` view and Dafny's `char` sequence agree.
  Invalid UTF-8 is not modelled.
- A secret containing a literal `_` can never be won and could empty the executioner's pool
  (the index at hangman.go:92 would then panic). `Executioner.Guesser.Play` and
  `Executioner.PlayExecutioner` require a secret without `_`. The mask and prune lemmas that
  do not need this condition hold for every secret.
