/** The word-tokenizer `Vocabulary` (Translator/functions.py): the same
    dictionaries as the number-splitting variant, but segmentation is done by
    an injected tokenizer, only `new_word` is registered at construction, and
    index 4 is pre-filled with "MASK" while `num_words` starts at 4. Also the
    `chunks` helper. */
module Translator {
  import opened Text
  import opened Registry
  import opened Encoding

  const MASK: int := 4

  /** The dictionaries `__init__` creates: only `new_word` registered,
      `num_words` at 4, and "MASK" stored at index 4 all the same. */
  function InitialTables(): (r: Tables)
    ensures r.word2count.Keys == r.word2index.Keys == {"new_word"}
    ensures r.numWords == MASK && MASK in r.index2word && r.index2word[MASK] == "MASK"
  {
    Tables(
      map["new_word" := NEW_WORD],
      map["new_word" := 1],
      map[PAD := "PAD", SOS := "SOS", EOS := "EOS", NEW_WORD := "new_word", MASK := "MASK"],
      4)
  }

  /** The dictionaries' invariant: registered words and the indices
      `3 .. numWords - 1` correspond one to one, `index2word` holds exactly
      the indices below `max(numWords, 5)`, PAD/SOS/EOS sit at 0..2 without
      being registered, `new_word` keeps index 3, and "MASK" survives at 4
      only while no word has been registered. */
  ghost predicate TablesValid(t: Tables) {
    && Registered(t, NEW_WORD)
    && (forall i :: i in t.index2word <==> 0 <= i < Max(t.numWords, MASK + 1))
    && t.index2word[PAD] == "PAD" && t.index2word[SOS] == "SOS" && t.index2word[EOS] == "EOS"
    && "new_word" in t.word2index && t.word2index["new_word"] == NEW_WORD
    && (t.numWords == MASK ==> t.index2word[MASK] == "MASK")
  }

  lemma InitialRegistered()
    ensures Registered(InitialTables(), NEW_WORD)
  {
    var t := InitialTables();
    assert t.word2index.Keys == {"new_word"};
    forall w | w in t.word2index
      ensures NEW_WORD <= t.word2index[w] < t.numWords && t.word2index[w] in t.index2word
      ensures t.index2word[t.word2index[w]] == w
    {
      assert w == "new_word";
    }
    forall i | NEW_WORD <= i < t.numWords
      ensures i in t.index2word && t.index2word[i] in t.word2index
      ensures t.word2index[t.index2word[i]] == i
    {
      assert i == NEW_WORD;
    }
  }

  /** After construction only `new_word` is registered, `num_words` is 4 and
      `index2word` maps 0..4 to PAD, SOS, EOS, new_word and MASK. */
  lemma InitialTablesValid()
    ensures TablesValid(InitialTables())
    ensures InitialTables().numWords == 4
    ensures InitialTables().word2index.Keys == {"new_word"}
    ensures InitialTables().index2word[MASK] == "MASK"
  {
    InitialRegistered();
    InitialIndices();
  }

  lemma InitialIndices()
    ensures forall i :: i in InitialTables().index2word <==> 0 <= i < Max(InitialTables().numWords, MASK + 1)
  {
    assert InitialTables().index2word.Keys == {0, 1, 2, 3, 4};
  }

  /** Registering any token sequence keeps the invariant. */
  lemma AddWordsValid(t: Tables, ws: seq<string>)
    requires TablesValid(t)
    ensures TablesValid(AddWords(t, ws))
  {
    var r := AddWords(t, ws);
    AddWordsRegistered(t, NEW_WORD, ws);
    AddWordsStable(t, ws);
    AddWordsIndices(t, ws);
    assert forall i :: i in r.index2word <==> 0 <= i < Max(r.numWords, MASK + 1);
    if r.numWords == MASK {
      AddWordsNoGrowth(t, ws);
    }
  }

  /** `add_word` alone keeps the invariant: it is registering a one-word
      list. */
  lemma AddWordValid(t: Tables, w: string)
    requires TablesValid(t)
    ensures TablesValid(Registry.AddWord(t, w))
  {
    assert [w][..0] == [];
    assert AddWords(t, [w]) == Registry.AddWord(t, w);
    AddWordsValid(t, [w]);
  }

  /** The first word registered after construction takes index 4: it
      replaces "MASK" in `index2word`, so MASK no longer names any slot. */
  lemma FirstWordTakesMask(t: Tables, w: string)
    requires TablesValid(t)
    requires t.numWords == MASK
    requires w !in t.word2index
    ensures var r := AddWord(t, w);
      && r.word2index[w] == MASK
      && r.index2word[MASK] == w
      && r.numWords == MASK + 1
      && (w != "MASK" ==> forall i :: i in r.index2word ==> r.index2word[i] != "MASK")
  {
    var r := AddWord(t, w);
    AddWordNew(t, w);
    forall i | i in r.index2word
      ensures w != "MASK" ==> r.index2word[i] != "MASK"
    {
      if NEW_WORD <= i < MASK {
        assert r.index2word[i] == t.index2word[i] == "new_word";
      }
    }
  }

  /** `[tok.text.lower() for tok in tokens]`. */
  function LowerAll(toks: seq<string>): (r: seq<string>)
    ensures |r| == |toks|
    ensures forall i :: 0 <= i < |r| ==> r[i] == Lower(toks[i]) && IsLowered(r[i])
  {
    seq(|toks|, i requires 0 <= i < |toks| => Lower(toks[i]))
  }

  class Vocabulary {
    const name: string
    /** The injected tokenizer, reduced to the texts of the tokens it yields. */
    const tokenizer: string -> seq<string>
    var word2index: map<string, int>
    var word2count: map<string, int>
    var index2word: map<int, string>
    var numWords: int
    var numSentences: int
    var longestSentence: int
    const sentenceTrim: int

    /** The vocabulary's dictionaries and counter as one value. */
    ghost function AsTables(): Tables
      reads this`word2index, this`word2count, this`index2word, this`numWords
    {
      Tables(word2index, word2count, index2word, numWords)
    }

    ghost predicate TablesOk()
      reads this`word2index, this`word2count, this`index2word, this`numWords
    {
      TablesValid(AsTables())
    }

    /** The object invariant: valid dictionaries and non-negative counters. */
    ghost predicate Valid()
      reads this
    {
      TablesOk() && numSentences >= 0 && longestSentence >= 0
    }

    /** The token texts `add_sentence` registers for `sentence`: the
        tokenizer runs on the sentence without newlines, then each token is
        lowercased. */
    function Ingested(sentence: string): (r: seq<string>)
      ensures |r| == |tokenizer(RemoveNewlines(sentence))|
      ensures forall k :: 0 <= k < |r| ==> IsLowered(r[k])
    {
      LowerAll(tokenizer(RemoveNewlines(sentence)))
    }

    /** The token texts `sentence_to_index` looks up for `sentence`: here the
        sentence is lowercased before the tokenizer runs. Where `add_sentence`
        lowercases the tokenizer's output, this lowercases its input: both
        start from the sentence without newlines. */
    function Encoded(sentence: string): (r: seq<string>)
      ensures r == tokenizer(Lower(RemoveNewlines(sentence)))
    {
      LowerRemoveNewlines(sentence);
      tokenizer(RemoveNewlines(Lower(sentence)))
    }

    /** `__init__(name, tokenizer, sentence_trim)`. */
    constructor (name: string, tokenizer: string -> seq<string>, sentenceTrim: int)
      ensures Valid()
      ensures AsTables() == InitialTables()
      ensures this.name == name && this.tokenizer == tokenizer
      ensures this.sentenceTrim == sentenceTrim
      ensures numSentences == 0 && longestSentence == 0
    {
      this.tokenizer := tokenizer;
      this.name := name;
      word2index := map["new_word" := NEW_WORD];
      word2count := map["new_word" := 1];
      index2word := map[PAD := "PAD", SOS := "SOS", EOS := "EOS", NEW_WORD := "new_word",
                        MASK := "MASK"];
      numWords := 4;
      numSentences := 0;
      longestSentence := 0;
      this.sentenceTrim := sentenceTrim;
      InitialTablesValid();
    }

    /** `add_word(word)`. Its effect on the dictionaries is
        `Registry.AddWord`, which keeps `Valid()` by `AddWordValid`. */
    method AddWord(word: string)
      requires word2count.Keys == word2index.Keys
      modifies this`word2index, this`word2count, this`index2word, this`numWords
      ensures AsTables() == Registry.AddWord(old(AsTables()), word)
    {
      if word !in word2index {
        word2index := word2index[word := numWords];
        word2count := word2count[word := 1];
        index2word := index2word[numWords := word];
        numWords := numWords + 1;
      } else {
        word2count := word2count[word := word2count[word] + 1];
      }
    }

    /** `add_sentence(sentence)`: register each lowercased token in order,
        then update the sentence statistics. */
    method AddSentence(sentence: string)
      requires Valid()
      modifies this`word2index, this`word2count, this`index2word, this`numWords
      modifies this`numSentences, this`longestSentence
      ensures Valid()
      ensures AsTables() == AddWords(old(AsTables()), Ingested(sentence))
      ensures numSentences == old(numSentences) + 1
      ensures longestSentence == Max(old(longestSentence), |Ingested(sentence)|)
      ensures forall k :: 0 <= k < |Ingested(sentence)| ==> Ingested(sentence)[k] in word2index
    {
      var words := LowerAll(tokenizer(RemoveNewlines(sentence)));
      AddTokens(words);
    }

    /** The body of `add_sentence` once the tokens are known. */
    method AddTokens(words: seq<string>)
      requires Valid()
      modifies this`word2index, this`word2count, this`index2word, this`numWords
      modifies this`numSentences, this`longestSentence
      ensures Valid()
      ensures AsTables() == AddWords(old(AsTables()), words)
      ensures numSentences == old(numSentences) + 1
      ensures longestSentence == Max(old(longestSentence), |words|)
      ensures forall k :: 0 <= k < |words| ==> words[k] in word2index
    {
      var sentenceLen := AddWordsOf(words);
      AddWordsValid(old(AsTables()), words);
      AddWordsContains(old(AsTables()), words);
      assert TablesOk();
      RecordLength(sentenceLen);
    }

    /** The statistics `add_sentence` keeps: the number of sentences and the
        longest one so far. */
    method RecordLength(sentenceLen: int)
      requires numSentences >= 0 && longestSentence >= 0
      modifies this`numSentences, this`longestSentence
      ensures numSentences == old(numSentences) + 1
      ensures longestSentence == Max(old(longestSentence), sentenceLen)
      ensures numSentences >= 0 && longestSentence >= 0
    {
      if sentenceLen > longestSentence {
        longestSentence := sentenceLen;
      }
      numSentences := numSentences + 1;
    }

    /** The word loop of `add_sentence`: `add_word` on each token in order,
        counting them. */
    method AddWordsOf(words: seq<string>) returns (sentenceLen: int)
      requires word2count.Keys == word2index.Keys
      modifies this`word2index, this`word2count, this`index2word, this`numWords
      ensures AsTables() == AddWords(old(AsTables()), words)
      ensures sentenceLen == |words|
    {
      sentenceLen := 0;
      var i := 0;
      while i < |words|
        invariant 0 <= i <= |words|
        invariant sentenceLen == i
        invariant AsTables() == AddWords(old(AsTables()), words[..i])
      {
        sentenceLen := sentenceLen + 1;
        AddWordsStep(old(AsTables()), words, i);
        AddWord(words[i]);
        i := i + 1;
      }
      assert words[..i] == words;
    }

    /** `to_word(index)`: the entry of `index2word`, or None where Python
        raises KeyError. PAD, SOS and EOS answer at 0..2, and index 4 answers
        "MASK" until a word is registered. */
    function ToWord(index: int): (r: Option<string>)
      reads this
      requires Valid()
      ensures r.Some? <==> 0 <= index < Max(numWords, MASK + 1)
      ensures NEW_WORD <= index < numWords ==>
        r.Some? && r.value in word2index && word2index[r.value] == index
      ensures index == PAD ==> r == Some("PAD")
      ensures index == SOS ==> r == Some("SOS")
      ensures index == EOS ==> r == Some("EOS")
      ensures numWords == MASK && index == MASK ==> r == Some("MASK")
    {
      if index in index2word then Some(index2word[index]) else None
    }

    /** `to_index(word)`: the index of `word.lower()`, or None where Python
        raises KeyError; every index it returns is at least 3. */
    function ToIndex(word: string): (r: Option<int>)
      reads this
      requires Valid()
      ensures r.Some? <==> Lower(word) in word2index
      ensures r.Some? ==> word2index[Lower(word)] == r.value && NEW_WORD <= r.value < numWords
      ensures r.Some? ==> ToWord(r.value) == Some(Lower(word))
    {
      var w := Lower(word);
      if w in word2index then Some(word2index[w]) else None
    }

    /** For a registered lowercase word, `to_word(to_index(w)) == w`. */
    lemma WordRoundTrip(w: string)
      requires Valid()
      requires w in word2index && IsLowered(w)
      ensures ToIndex(w).Some? && ToWord(ToIndex(w).value) == Some(w)
    {
      LowerFixesLowered(w);
    }

    /** `to_index("new_word")` always succeeds, with NEW_WORD. */
    lemma NewWordIndex()
      requires Valid()
      ensures ToIndex("new_word") == Some(NEW_WORD)
    {
      NewWordLowered();
    }

    /** `sentence_to_index(sentence, padding)`: SOS, the index of each token
        (NEW_WORD for unknown ones), EOS, then optionally padded with PAD or
        truncated to `sentence_trim` entries. Nothing is registered. */
    method SentenceToIndex(sentence: string, padding: bool) returns (r: seq<int>)
      requires Valid()
      ensures var framed := Framed(word2index, Encoded(sentence), NEW_WORD);
        r == if padding then PadTrim(framed, sentenceTrim) else framed
      ensures !padding ==> |r| == |Encoded(sentence)| + 2 && r[0] == SOS && r[|r| - 1] == EOS
      ensures padding && sentenceTrim >= 0 ==> |r| == sentenceTrim
    {
      var toks := tokenizer(RemoveNewlines(Lower(sentence)));
      var encoded := [SOS];
      var i := 0;
      while i < |toks|
        invariant 0 <= i <= |toks|
        invariant encoded == [SOS] + LookupAll(word2index, toks[..i], NEW_WORD)
      {
        LookupAllStep(word2index, toks, i, NEW_WORD);
        var idx := ToIndex(toks[i]);
        if idx.Some? {
          encoded := encoded + [idx.value];
        } else {
          NewWordIndex();
          var unknown := ToIndex("new_word");
          encoded := encoded + [unknown.value];
        }
        i := i + 1;
      }
      encoded := encoded + [EOS];
      assert toks[..i] == toks;
      if padding {
        r := PadAndTrim(encoded, sentenceTrim);
        if sentenceTrim >= 0 {
          PadTrimLength(encoded, sentenceTrim);
        }
      } else {
        r := encoded;
      }
    }
  }

  /** The slices `lst[i:i + n]`, `lst[i + n:i + 2n]`, ... that the generator
      yields from position `i` on, for a positive step `n`. */
  function ChunksFrom<T>(lst: seq<T>, n: int, i: nat): (r: seq<seq<T>>)
    requires n > 0
    ensures r == [] <==> i >= |lst|
    ensures forall k :: 0 <= k < |r| ==> 0 < |r[k]| <= n
    decreases |lst| - i
  {
    if i >= |lst| then []
    else [lst[i..if i + n <= |lst| then i + n else |lst|]] + ChunksFrom(lst, n, i + n)
  }

  /** `list(chunks(lst, n))`: None where `range(0, len(lst), n)` raises
      ValueError (a zero step), no chunks at all for a negative step. */
  function Chunks<T>(lst: seq<T>, n: int): (r: Option<seq<seq<T>>>)
    ensures r.None? <==> n == 0
    ensures n < 0 ==> r == Some([])
    ensures n > 0 ==> forall k :: 0 <= k < |r.value| ==> 0 < |r.value[k]| <= n
  {
    if n == 0 then None
    else if n < 0 then Some([])
    else Some(ChunksFrom(lst, n, 0))
  }

  /** The chunks from position `i` on concatenate back to `lst[i..]`. */
  lemma {:induction false} ChunksFromFlatten<T>(lst: seq<T>, n: int, i: nat)
    requires n > 0 && i <= |lst|
    ensures Flatten(ChunksFrom(lst, n, i)) == lst[i..]
    decreases |lst| - i
  {
    if i < |lst| {
      var j := if i + n <= |lst| then i + n else |lst|;
      ChunksFromFlatten(lst, n, j);
      if j == |lst| {
        assert ChunksFrom(lst, n, i + n) == [];
      }
      assert lst[i..] == lst[i..j] + lst[j..];
    }
  }

  /** Every chunk from position `i` on but the last has exactly `n`
      elements. */
  lemma {:induction false} ChunksFromFull<T>(lst: seq<T>, n: int, i: nat)
    requires n > 0
    ensures forall k :: 0 <= k < |ChunksFrom(lst, n, i)| - 1 ==> |ChunksFrom(lst, n, i)[k]| == n
    decreases |lst| - i
  {
    var cs := ChunksFrom(lst, n, i);
    if i + n < |lst| {
      var rest := ChunksFrom(lst, n, i + n);
      ChunksFromFull(lst, n, i + n);
      assert cs == [lst[i..i + n]] + rest;
      forall k | 0 <= k < |cs| - 1
        ensures |cs[k]| == n
      {
        if k > 0 {
          assert cs[k] == rest[k - 1];
        } else {
          assert cs[0] == lst[i..i + n];
        }
      }
    } else if i < |lst| {
      assert ChunksFrom(lst, n, i + n) == [];
    }
  }

  /** The number `c` of chunks from position `i` on is the ceiling of
      `(|lst| - i) / n`, that is `(c - 1) * n < |lst| - i <= c * n`. */
  lemma {:induction false} ChunksFromCount<T>(lst: seq<T>, n: int, i: nat)
    requires n > 0 && i <= |lst|
    ensures var c := |ChunksFrom(lst, n, i)|;
      c > 0 ==> (c - 1) * n < |lst| - i <= c * n
    decreases |lst| - i
  {
    if i < |lst| {
      if i + n < |lst| {
        ChunksFromCount(lst, n, i + n);
        var c := |ChunksFrom(lst, n, i + n)|;
        assert |ChunksFrom(lst, n, i)| == c + 1;
        assert (c + 1) * n == c * n + n;
        assert (c - 1) * n == c * n - n;
      } else {
        assert ChunksFrom(lst, n, i + n) == [];
      }
    }
  }

  /** Every chunk from position `i` on is non-empty, has at most `n`
      elements, and all but the last have exactly `n`; their number `c` is
      the ceiling of `(|lst| - i) / n`, that is `(c - 1) * n < |lst| - i <= c * n`. */
  lemma ChunksFromSizes<T>(lst: seq<T>, n: int, i: nat)
    requires n > 0 && i <= |lst|
    ensures var cs := ChunksFrom(lst, n, i);
      && (|cs| == 0 <==> i == |lst|)
      && (|cs| > 0 ==> (|cs| - 1) * n < |lst| - i <= |cs| * n)
      && (forall k :: 0 <= k < |cs| ==> 0 < |cs[k]| <= n)
      && (forall k :: 0 <= k < |cs| - 1 ==> |cs[k]| == n)
  {
    ChunksFromFull(lst, n, i);
    ChunksFromCount(lst, n, i);
  }

  /** `chunks` with a positive size splits `lst` into consecutive slices that
      concatenate back to it: all of length `n` except possibly the last,
      which is non-empty, and `ceil(|lst| / n)` of them. */
  lemma ChunksSpec<T>(lst: seq<T>, n: int)
    requires n > 0
    ensures Chunks(lst, n).Some?
    ensures var cs := Chunks(lst, n).value;
      && Flatten(cs) == lst
      && (|cs| == 0 <==> |lst| == 0)
      && (|cs| > 0 ==> (|cs| - 1) * n < |lst| <= |cs| * n)
      && (forall k :: 0 <= k < |cs| ==> 0 < |cs[k]| <= n)
      && (forall k :: 0 <= k < |cs| - 1 ==> |cs[k]| == n)
  {
    ChunksFromFlatten(lst, n, 0);
    ChunksFromSizes(lst, n, 0);
  }
}
