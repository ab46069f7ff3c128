# MathLLM vocabularies in Dafny

MathLLM trains sequence models on mathematical text. Each model keeps a
`Vocabulary`: three dictionaries (`word2index`, `word2count`, `index2word`)
and a `num_words` counter. A vocabulary registers the tokens of training
sentences and turns a sentence into a list of indices. There are two
variants, and this project models both as Dafny classes whose fields the
methods update in place:

- **Autoregressive** (`Autoregressive/functions.py`). It reserves six tokens
  at indices 0..5: PAD, SOS, EOS, `new_word`, `<num>` and `</num>`. It has its
  own tokenizer:
  - `|`, `,` and `:` are padded with spaces, newlines are removed and the
    sentence is stripped;
  - the sentence is split on single spaces;
  - a word matched by `[-\d\.]+` becomes `<num>`, one token per character,
    then `</num>`;
  - every other word is lowercased.

  The class also records the length of every sentence it ingests.
- **Translator** (`Translator/functions.py`). Segmentation comes from an
  injected tokenizer. Only `new_word` is registered at construction.
  `index2word` also names PAD, SOS, EOS at 0..2 and "MASK" at 4, while
  `num_words` starts at 4, so the first word registered takes index 4 and
  replaces "MASK" (`Translator.FirstWordTakesMask`). The same file's `chunks`
  generator is modelled as a function on sequences.

The shared parts are separate modules:
- `Registry`: the dictionaries as a value `Tables`, with `add_word`, which is
  identical in both files.
- `Encoding`: the SOS/lookup/EOS framing and the padding step of
  `sentence_to_index`.
- `NumericTokenizer`: the Autoregressive tokenizer, with worked examples
  of its cleaning step in `TokenizerExamples`.
- `Text`: the Python string builtins the code relies on (`lower`, `replace`,
  `strip`, `split(" ")`, `re.findall`).

Every method of a class is proved against a function on `Tables` or on
token sequences. Lemmas then prove what the source relies on about those
functions:
- the dictionaries stay mutual inverses;
- indices, once assigned, never move;
- counts grow by the number of occurrences;
- the tokenizer's `findall` membership test agrees with "the word is
  numeric";
- splitting loses nothing;
- the padded encoding has exactly `sentence_trim` entries;
- `chunks` concatenates back to its input.

## Model

| member | source | states |
|---|---|---|
| `Text.Lower` | Autoregressive/functions.py:81 | `str.lower()` keeps the length and lowercases each ASCII letter in place |
| `Text.LowerIsLowered` | Autoregressive/functions.py:66 | a lowercased word has no upper-case letter left |
| `Text.LowerFixesLowered` | Autoregressive/functions.py:81 | lowercasing a word with no upper-case letter returns it unchanged |
| `Text.ReplaceChar` | Autoregressive/functions.py:57 | after `replace(c, rep)` with `c` not in `rep`, `c` no longer occurs |
| `Text.ReplaceCharAppend` | Autoregressive/functions.py:57 | `replace` works piece by piece: on a concatenation it is the concatenation of the replaced pieces |
| `Text.ReplaceCharAbsent` | Autoregressive/functions.py:57 | `replace(c, rep)` leaves a string without `c` unchanged |
| `Text.ReplaceCharOnce` | Autoregressive/functions.py:57 | the single `c` in `a + c + b` is replaced by `rep` and nothing else changes |
| `Text.NoNewline` | Autoregressive/functions.py:57 | `replace('\n','')` leaves a string without newlines unchanged |
| `Text.LowerRemoveNewlines` | Translator/functions.py:64 | lowercasing and removing newlines give the same string in either order |
| `Text.RemoveNewlines` | Translator/functions.py:46 | `replace('\n','')` leaves no newline |
| `Text.StripLeft` | Autoregressive/functions.py:57 | removes exactly the leading whitespace: a suffix whose first character is not whitespace |
| `Text.StripRight` | Autoregressive/functions.py:57 | removes exactly the trailing whitespace: a prefix whose last character is not whitespace |
| `Text.Strip` | Autoregressive/functions.py:57 | `strip()` returns a slice of the input with only whitespace outside it, and the slice neither starts nor ends with whitespace |
| `Text.StripUnchanged` | Autoregressive/functions.py:57 | `strip()` leaves a non-empty string that neither starts nor ends with whitespace unchanged |
| `Text.StripKeepsAbsent` | Autoregressive/functions.py:57 | `strip()` adds no character: one absent from the input is absent from the result |
| `Text.FirstSpace` | Autoregressive/functions.py:60 | the position of the first space: a space, with none before it |
| `Text.Split` | Autoregressive/functions.py:60 | `split(" ")` yields at least one piece, and no piece contains a space |
| `Text.JoinSplit` | Autoregressive/functions.py:60 | joining the pieces of `split(" ")` with single spaces gives the string back |
| `Text.SplitJoin` | Autoregressive/functions.py:60 | splitting space-free words joined by single spaces gives the words back |
| `Text.SplitCons` | Autoregressive/functions.py:60 | a space-free word followed by a space is split off as the first piece |
| `Text.RunLength` | Autoregressive/functions.py:58 | the length of the longest numeric prefix: numeric characters up to it, a non-numeric one at it |
| `Text.Runs` | Autoregressive/functions.py:58 | every string `re.findall('([-\d\.]+)')` returns is non-empty and numeric |
| `Text.PrefixIsRun` | Autoregressive/functions.py:58 | a numeric prefix followed by a non-numeric character (or the end) is the first match |
| `Text.DelimitedIsRun` | Autoregressive/functions.py:58 | every numeric infix between non-numeric characters (or the ends) is among the matches |
| `Text.RunsAfterSeparator` | Autoregressive/functions.py:58 | the matches found after a non-numeric character are matches of the whole string |
| `Text.RunsMatchNumericWords` | Autoregressive/functions.py:58-61 | for a word of `split(" ")`, `word in numbers` holds exactly when the word is numeric |
| `Registry.AddWord` | Autoregressive/functions.py:44-53 | after `add_word` the registered words are the old ones plus the word, in both `word2index` and `word2count` |
| `Registry.AddWords` | Autoregressive/functions.py:67-69 | after registering a token list the registered words are the old ones plus the tokens |
| `Registry.AddWordsContains` | Autoregressive/functions.py:67-69 | every token of the list is registered afterwards |
| `Registry.RegisteredInjective` | Autoregressive/functions.py:47 | under the invariant, distinct words have distinct indices |
| `Registry.AddWordNew` | Autoregressive/functions.py:45-50 | an unseen word gets index `num_words`, which maps back to it, and a count of 1; `num_words` grows by one and no other entry changes |
| `Registry.AddWordKnown` | Autoregressive/functions.py:51-53 | a known word only has its count incremented; its index, `index2word` and `num_words` are unchanged |
| `Registry.AddNewWordForward` | Translator/functions.py:34-39 | after an unseen word is added, every registered word maps to an index in range that maps back to it |
| `Registry.AddNewWordBackward` | Translator/functions.py:34-39 | after an unseen word is added, every index in range names a registered word that maps back to it |
| `Registry.AddNewWordRegistered` | Translator/functions.py:34-39 | adding an unseen word keeps `word2index` and `index2word` mutual inverses over the assigned indices |
| `Registry.AddKnownWordRegistered` | Translator/functions.py:40-42 | adding a known word keeps the correspondence and every count positive |
| `Registry.AddWordRegistered` | Translator/functions.py:33-42 | `add_word` keeps the correspondence, the equal key sets and the positive counts |
| `Registry.AddWordsRegistered` | Translator/functions.py:46-48 | registering a whole token list keeps the correspondence |
| `Registry.AddWordStable` | Translator/functions.py:33-42 | `add_word` never moves an existing word's index or an existing `index2word` entry, and never shrinks `num_words` |
| `Registry.AddWordsStable` | Autoregressive/functions.py:67-69 | the same for a whole token list |
| `Registry.AddWordsIndices` | Autoregressive/functions.py:49-50 | after a token list, `index2word` holds the old indices plus exactly the newly assigned ones |
| `Registry.AddWordsNoGrowth` | Translator/functions.py:46-48 | if `num_words` did not move, `index2word` is unchanged |
| `Registry.AddWordsCount` | Autoregressive/functions.py:48-53 | each word's `word2count` grows by exactly its number of occurrences in the token list |
| `Encoding.NewWordLowered` | Autoregressive/functions.py:102 | `"new_word"` is already lowercase, so the fallback lookup finds its key |
| `Encoding.Lookup` | Autoregressive/functions.py:97-102 | `to_index(tok)` with the bare `except:` fallback: the index of the lowercased token when it is registered; otherwise the fallback, so every answer is a registered index or the fallback |
| `Encoding.LookupAll` | Translator/functions.py:65-70 | one entry per token, each a registered index or the fallback |
| `Encoding.Framed` | Autoregressive/functions.py:94-103 | the unpadded `array`: two entries more than there are tokens, SOS first, EOS last, and in between registered indices or the fallback |
| `Encoding.Take` | Autoregressive/functions.py:107 | Python's `array[:k]`: a prefix of `array`, of length `k` when `0 <= k <= len`, the whole list when `k` is larger, and the list without its last `-k` entries (or empty) when `k` is negative |
| `Encoding.Pads` | Autoregressive/functions.py:104-106 | the PAD entries `range(len(array), sentence_trim)` appends: all PAD, just enough to reach `sentence_trim`, none when the list is long enough |
| `Encoding.PadTrim` | Autoregressive/functions.py:104-107 | the padded result: `sentence_trim` entries when it is non-negative, and each entry is the entry of `array` at the same position, or PAD past its end |
| `Encoding.PadAndTrim` | Autoregressive/functions.py:104-107 | the pad loop followed by `array[:sentence_trim]` equals the pad-then-slice definition |
| `Encoding.FramedShape` | Autoregressive/functions.py:94-103 | the unpadded encoding is SOS, the index of each known token or NEW_WORD for an unknown one, then EOS |
| `Encoding.PadTrimLength` | Autoregressive/functions.py:104-107 | with a non-negative trim the result has exactly `sentence_trim` entries: padded with PAD when short, a prefix when long |
| `Encoding.PadTrimNegative` | Translator/functions.py:72-75 | with a negative trim nothing is appended and the slice drops the last `-sentence_trim` entries |
| `Encoding.NewWordOnlyForNewWord` | Translator/functions.py:64-70 | when every token is registered and indices are distinct, NEW_WORD appears exactly where the token is `new_word` |
| `NumericTokenizer.ExplodeLowered` | Autoregressive/functions.py:61-66 | every token a word contributes is lowercase |
| `NumericTokenizer.FormatWordsShape` | Autoregressive/functions.py:60-66 | each word yields at least one token, and all tokens are lowercase |
| `NumericTokenizer.TokensShape` | Autoregressive/functions.py:57-66 | a sentence always yields at least one token, all lowercase |
| `NumericTokenizer.FormatWordsPlain` | Autoregressive/functions.py:65-66 | lowercase non-numeric words pass through unchanged, one token each |
| `NumericTokenizer.ExplodeDecimal` | Autoregressive/functions.py:61-64 | `12.5` becomes `<num>`, `1`, `2`, `.`, `5`, `</num>` |
| `NumericTokenizer.ExplodeMinus` | Autoregressive/functions.py:58-62 | a lone `-` matches the pattern and is exploded |
| `NumericTokenizer.ExplodeMixed` | Autoregressive/functions.py:65-66 | `A1` is not numeric and becomes the single token `a1` |
| `NumericTokenizer.FormatSentence` | Autoregressive/functions.py:84-93 | the formatting code of `sentence_to_index` yields `Tokens(sentence)`, the same token list as `add_sentence` |
| `NumericTokenizer.FormatCleaned` | Autoregressive/functions.py:58-66 | the word loop with the `word in numbers` test yields the tokens of the split words |
| `NumericTokenizer.AppendEach` | Autoregressive/functions.py:63-64 | appending the characters one by one appends the whole list |
| `NumericTokenizer.Clean` | Autoregressive/functions.py:57 | the cleaning chain leaves no newline, and the result neither starts nor ends with whitespace |
| `NumericTokenizer.Chars` | Autoregressive/functions.py:62 | `[c for c in word]`: one single-character token per character, in order, and they concatenate back to the word |
| `NumericTokenizer.Explode` | Autoregressive/functions.py:61-66 | a numeric word becomes `<num>`, its characters one per token, `</num>`; any other word becomes the single token of its lowercase form |
| `NumericTokenizer.FormatWords` | Autoregressive/functions.py:60-66 | the `formattedSentence` of a list of words has at least one token per word |
| `NumericTokenizer.Tokens` | Autoregressive/functions.py:57-66 | the token list of a sentence, shared with lines 84-93, is never empty |
| `TokenizerExamples.CleanPunctuation` | Autoregressive/functions.py:57 | the cleaning chain puts a space on either side of the comma, the colon and the bar in `a,b:c` + bar + `d` |
| `TokenizerExamples.CleanDoubleSpace` | Autoregressive/functions.py:57 | the cleaning chain turns `a, b` into `a ,  b`, with two spaces in a row |
| `TokenizerExamples.SplitPunctuation` | Autoregressive/functions.py:60 | `split(" ")` of that cleaned sentence gives seven words: the four letters and the three marks |
| `TokenizerExamples.SplitDoubleSpace` | Autoregressive/functions.py:60 | `split(" ")` of `a ,  b` gives `a`, `,`, the empty word and `b` |
| `TokenizerExamples.FormatShortWords` | Autoregressive/functions.py:65-66 | empty words and single non-numeric lowercase characters pass through as tokens unchanged |
| `TokenizerExamples.TokensPunctuation` | Autoregressive/functions.py:57-66 | `a,b:c` + bar + `d` yields seven tokens: `a`, the comma, `b`, the colon, `c`, the bar, `d` |
| `TokenizerExamples.TokensDoubleSpace` | Autoregressive/functions.py:57-66 | `a, b` yields the tokens `a`, `,`, the empty token and `b` |
| `Autoregressive.InitialTablesValid` | Autoregressive/functions.py:14-38 | the initial dictionaries are mutual inverses over 0..5, the reserved tokens sit at their indices, `num_words` is 6 and each count is 1 |
| `Autoregressive.InitialTables` | Autoregressive/functions.py:14-38 | the dictionaries `__init__` builds: equal key sets for `word2index` and `word2count`, `num_words` 6, and `index2word` naming PAD, SOS, EOS, `new_word`, `<num>` and `</num>` at 0..5 |
| `Autoregressive.InitialIndicesIndexed` | Autoregressive/functions.py:30-37 | each initial index 0..5 names a reserved token that maps back to it |
| `Autoregressive.InitialRegistered` | Autoregressive/functions.py:14-38 | the six reserved tokens and the indices 0..5 correspond one to one, each counted once |
| `Autoregressive.AddWordValid` | Autoregressive/functions.py:44-53 | `add_word` keeps the vocabulary invariant |
| `Autoregressive.AddWordsValid` | Autoregressive/functions.py:67-69 | registering a token list keeps the vocabulary invariant |
| `Autoregressive.EncodeRegistered` | Autoregressive/functions.py:94-102 | for lowercase tokens just registered, the encoding holds NEW_WORD exactly where the token is `new_word` |
| `Autoregressive.EncodeAfterIngest` | Autoregressive/functions.py:55-102 | after `add_sentence(s)`, `sentence_to_index(s)` falls back to NEW_WORD only for a literal `new_word` token |
| `Autoregressive.MaxOf` | Autoregressive/functions.py:70-72 | the largest recorded sentence length: no smaller than any entry, and 0 or one of them |
| `Autoregressive.MaxOfAppend` | Autoregressive/functions.py:70-75 | the running maximum after one more sentence is the larger of the old maximum and its length |
| `Autoregressive.Vocabulary.constructor` | Autoregressive/functions.py:6-42 | the new vocabulary satisfies the invariant, holds the initial dictionaries and has zero statistics |
| `Autoregressive.Vocabulary.AddWord` | Autoregressive/functions.py:44-53 | the new dictionaries are `add_word` applied to the old ones, which keeps the invariant by `AddWordValid` |
| `Autoregressive.Vocabulary.AddSentence` | Autoregressive/functions.py:55-75 | keeps the invariant, registers `Tokens(sentence)` in order and appends its length to the statistics |
| `Autoregressive.Vocabulary.AddTokens` | Autoregressive/functions.py:67-75 | registers the token list, then updates `longest_sentence`, `num_sentences` and `sentence_number` |
| `Autoregressive.Vocabulary.RecordLength` | Autoregressive/functions.py:70-75 | keeps `longest_sentence` the maximum of `sentence_number` and `num_sentences` its length |
| `Autoregressive.Vocabulary.AddWordsOf` | Autoregressive/functions.py:67-69 | the word loop equals registering the token list, and counts the tokens |
| `Autoregressive.Vocabulary.ToWord` | Autoregressive/functions.py:77-78 | defined exactly on 0 .. `num_words`-1, and the word found maps back to the index |
| `Autoregressive.Vocabulary.ToIndex` | Autoregressive/functions.py:80-81 | defined exactly when the lowercased word is registered; the index is in range and `to_word` of it is the lowercased word |
| `Autoregressive.Vocabulary.WordRoundTrip` | Autoregressive/functions.py:77-81 | `to_word(to_index(w)) == w` for a registered lowercase word |
| `Autoregressive.Vocabulary.UpperReservedUnreachable` | Autoregressive/functions.py:80-81 | `to_index("PAD")` fails unless "pad" was registered, since the key is looked up lowercased |
| `Autoregressive.Vocabulary.SentenceToIndex` | Autoregressive/functions.py:83-109 | SOS, the index of each token or NEW_WORD, EOS; with padding, padded or cut to `sentence_trim` entries |
| `Autoregressive.Vocabulary.EncodeTokens` | Autoregressive/functions.py:94-103 | the lookup loop with the fallback yields the framed encoding |
| `Autoregressive.Vocabulary.NewWordIndex` | Autoregressive/functions.py:102 | the fallback `to_index("new_word")` always succeeds, with 3 |
| `Translator.InitialRegistered` | Translator/functions.py:25-28 | initially only `new_word` is registered, at index 3, which maps back to it |
| `Translator.InitialIndices` | Translator/functions.py:27 | initially `index2word` holds exactly the indices 0..4 |
| `Translator.InitialTablesValid` | Translator/functions.py:25-28 | the initial tables satisfy the invariant, `num_words` is 4 and index 4 names "MASK" |
| `Translator.InitialTables` | Translator/functions.py:25-28 | the dictionaries `__init__` builds: only `new_word` registered and counted, `num_words` 4, yet "MASK" stored at index 4 |
| `Translator.AddWordValid` | Translator/functions.py:33-42 | `add_word` keeps the invariant, including "MASK" at 4 while nothing was registered |
| `Translator.AddWordsValid` | Translator/functions.py:46-48 | registering a token list keeps the invariant, including "MASK" surviving at 4 while nothing was registered |
| `Translator.FirstWordTakesMask` | Translator/functions.py:22-39 | the first new word gets index 4 and overwrites "MASK", after which no index names "MASK" |
| `Translator.LowerAll` | Translator/functions.py:46 | `[tok.text.lower() for tok in ...]` keeps the length and lowercases each token |
| `Translator.Vocabulary.constructor` | Translator/functions.py:17-31 | the new vocabulary satisfies the invariant, holds the initial dictionaries and the tokenizer, with zero statistics |
| `Translator.Vocabulary.AddWord` | Translator/functions.py:33-42 | the new dictionaries are `add_word` applied to the old ones, which keeps the invariant by `AddWordValid` |
| `Translator.Vocabulary.AddSentence` | Translator/functions.py:44-53 | keeps the invariant and registers the lowercased tokens of the sentence without newlines, in order |
| `Translator.Vocabulary.AddTokens` | Translator/functions.py:46-53 | registers the tokens, then updates `longest_sentence` and `num_sentences` |
| `Translator.Vocabulary.RecordLength` | Translator/functions.py:49-53 | `num_sentences` grows by one and `longest_sentence` becomes the larger of the old value and the length |
| `Translator.Vocabulary.AddWordsOf` | Translator/functions.py:46-48 | the word loop equals registering the token list, and counts the tokens |
| `Translator.Vocabulary.Ingested` | Translator/functions.py:46 | the texts `add_sentence` registers: one per token the tokenizer yields for the sentence without newlines, each lowercase |
| `Translator.Vocabulary.Encoded` | Translator/functions.py:64 | the texts `sentence_to_index` looks up: the tokenizer applied to the sentence lowercased and without newlines, in either order |
| `Translator.Vocabulary.ToWord` | Translator/functions.py:55-56 | defined exactly below `max(num_words, 5)`: PAD, SOS and EOS at 0..2, "MASK" at 4 while nothing is registered, and a registered word that maps back at 3 .. `num_words`-1 |
| `Translator.Vocabulary.ToIndex` | Translator/functions.py:58-59 | defined exactly when the lowercased word is registered; the index is in 3 .. `num_words`-1 and `to_word` of it is the lowercased word |
| `Translator.Vocabulary.WordRoundTrip` | Translator/functions.py:55-59 | `to_word(to_index(w)) == w` for a registered lowercase word |
| `Translator.Vocabulary.NewWordIndex` | Translator/functions.py:70 | the fallback `to_index("new_word")` always succeeds, with 3 |
| `Translator.Vocabulary.SentenceToIndex` | Translator/functions.py:61-77 | SOS, the index of each token of the lowercased sentence or NEW_WORD, EOS; with padding, padded or cut to `sentence_trim` entries |
| `Translator.ChunksFrom` | Translator/functions.py:149-150 | the slices yielded from position `i` on: none exactly when `i` is at or past the end, each non-empty with at most `n` elements |
| `Translator.Chunks` | Translator/functions.py:147-150 | `list(chunks(lst, n))`: None (the ValueError) exactly when `n` is 0, no slices for a negative `n`, and for a positive `n` non-empty slices of at most `n` elements |
| `Translator.ChunksFromFlatten` | Translator/functions.py:149-150 | the slices from position `i` on concatenate back to `lst[i:]` |
| `Translator.ChunksFromFull` | Translator/functions.py:149-150 | every slice but the last has exactly `n` elements |
| `Translator.ChunksFromCount` | Translator/functions.py:149-150 | the number of slices from position `i` on is the ceiling of `(len - i) / n` |
| `Translator.ChunksFromSizes` | Translator/functions.py:149-150 | each slice is non-empty with at most `n` elements, all but the last exactly `n`, and there are `ceil((len - i) / n)` of them |
| `Translator.ChunksSpec` | Translator/functions.py:147-150 | for `n > 0`, `chunks` yields `ceil(len / n)` non-empty slices of size `n` (the last possibly shorter) that concatenate back to `lst` |

## Left out

- `train`, `evaluate`, `epoch_time`, `count_parameters`, `pretty_size` and `dump_tensors` in Translator/functions.py are not part of this model. They drive PyTorch models, measure time or inspect memory.
- Python's `KeyError` from `to_word` and `to_index` is modelled as `None`. The bare `except:` in `sentence_to_index` becomes the fallback to the `new_word` index.
- The ValueError that `range(0, len(lst), 0)` raises in `chunks` is modelled as `None`.
- `chunks` is a lazy generator. It is modelled as the list of all the slices it yields.
- `str.lower()` is modelled for ASCII letters only. `\d` in the number pattern is modelled as the ASCII digits. Non-ASCII case mappings and Unicode digits are not captured.
- `re.findall` is modelled only for the pattern `([-\d\.]+)` the code uses. It is not a general regular-expression engine.
- The Translator's tokenizer object is modelled as a function from the sentence to the texts of its tokens. Its internal segmentation rules and the other attributes of its token objects are not modelled.
- For the Translator vocabulary, no lemma relates an ingested sentence to its encoding. `add_sentence` tokenizes before lowercasing, but `sentence_to_index` lowercases before tokenizing, so for an arbitrary tokenizer the two token lists need not agree.
- The default arguments `sentence_trim=50` and `padding=False` are not modelled as defaults. Callers pass them explicitly.
- Python's integers are unbounded, like Dafny's `int`, so no width limits apply.
