/** The number-splitting `Vocabulary` (Autoregressive/functions.py): six
    reserved tokens, `add_word`, `add_sentence` with its own tokenizer,
    `to_word`, `to_index` and `sentence_to_index`. */
module Autoregressive {
  import opened Text
  import opened Registry
  import opened Encoding
  import opened NumericTokenizer

  const START_NUMBER: int := 4
  const END_NUMBER: int := 5

  /** The dictionaries `__init__` creates: the six reserved tokens, each
      counted once, with `index2word` naming them at 0..5 in the order of
      `RESERVED`. */
  function InitialTables(): (r: Tables)
    ensures r.word2count.Keys == r.word2index.Keys
    ensures r.numWords == |RESERVED|
    ensures forall i :: 0 <= i < |RESERVED| ==> i in r.index2word && r.index2word[i] == RESERVED[i]
  {
    Tables(
      map["new_word" := NEW_WORD, "PAD" := PAD, "SOS" := SOS, "EOS" := EOS,
          "<num>" := START_NUMBER, "</num>" := END_NUMBER],
      map["new_word" := 1, "PAD" := 1, "SOS" := 1, "EOS" := 1, "<num>" := 1, "</num>" := 1],
      map[PAD := "PAD", SOS := "SOS", EOS := "EOS", NEW_WORD := "new_word",
          START_NUMBER := "<num>", END_NUMBER := "</num>"],
      6)
  }

  /** The reserved tokens, each at its own index. */
  const RESERVED: seq<string> := ["PAD", "SOS", "EOS", "new_word", "<num>", "</num>"]

  /** The reserved tokens keep their indices. */
  ghost predicate Reserved(word2index: map<string, int>) {
    forall i :: 0 <= i < |RESERVED| ==> RESERVED[i] in word2index && word2index[RESERVED[i]] == i
  }

  /** The dictionaries' invariant: registered words and the indices
      `0 .. numWords - 1` correspond one to one, `index2word` holds nothing
      else, and the reserved tokens are in place. */
  ghost predicate TablesValid(t: Tables) {
    && Registered(t, 0)
    && (forall i :: i in t.index2word ==> 0 <= i < t.numWords)
    && Reserved(t.word2index)
  }

  lemma InitialSize()
    ensures |InitialTables().word2index| == 6
  {
    assert InitialTables().word2index.Keys == {"new_word", "PAD", "SOS", "EOS", "<num>", "</num>"};
  }

  lemma InitialReserved()
    ensures Reserved(InitialTables().word2index)
  {
  }

  lemma InitialCounts()
    ensures var t := InitialTables();
      && t.word2count.Keys == t.word2index.Keys
      && forall w :: w in t.word2count ==> t.word2count[w] == 1
  {
  }

  lemma InitialWordsIndexed()
    ensures var t := InitialTables();
      forall w :: w in t.word2index ==>
        && 0 <= t.word2index[w] < 6
        && t.word2index[w] in t.index2word
        && t.index2word[t.word2index[w]] == w
  {
    var t := InitialTables();
    forall w | w in t.word2index
      ensures 0 <= t.word2index[w] < 6 && t.word2index[w] in t.index2word
      ensures t.index2word[t.word2index[w]] == w
    {
      assert w == "new_word" || w == "PAD" || w == "SOS" || w == "EOS" || w == "<num>" || w == "</num>";
    }
  }

  lemma InitialIndicesNamed()
    ensures var t := InitialTables();
      && t.index2word.Keys == {0, 1, 2, 3, 4, 5}
      && forall i :: 0 <= i < 6 ==> t.index2word[i] == RESERVED[i]
  {
  }

  lemma InitialIndicesIndexed()
    ensures var t := InitialTables();
      forall i :: 0 <= i < t.numWords ==>
        && i in t.index2word
        && t.index2word[i] in t.word2index
        && t.word2index[t.index2word[i]] == i
  {
    var t := InitialTables();
    forall i | 0 <= i < t.numWords
      ensures i in t.index2word && t.index2word[i] in t.word2index
      ensures t.word2index[t.index2word[i]] == i
    {
      assert t.index2word[i] == RESERVED[i];
    }
  }

  /** The six reserved tokens and the indices 0..5 correspond one to one. */
  lemma InitialRegistered()
    ensures Registered(InitialTables(), 0)
  {
    InitialSize();
    InitialCounts();
    InitialWordsIndexed();
    InitialIndicesIndexed();
  }

  /** After construction the maps are mutual inverses over 0..5, `num_words`
      is 6 and every reserved token is counted once. */
  lemma InitialTablesValid()
    ensures TablesValid(InitialTables())
    ensures InitialTables().numWords == 6
    ensures InitialTables().index2word.Keys == {0, 1, 2, 3, 4, 5}
    ensures forall w :: w in InitialTables().word2count ==> InitialTables().word2count[w] == 1
  {
    InitialRegistered();
    InitialReserved();
    InitialCounts();
    InitialIndicesNamed();
  }

  /** `add_word` keeps the invariant, and so does registering a whole token
      sequence. */
  lemma AddWordsValid(t: Tables, ws: seq<string>)
    requires TablesValid(t)
    ensures TablesValid(AddWords(t, ws))
  {
    var r := AddWords(t, ws);
    AddWordsRegistered(t, 0, ws);
    assert Registered(r, 0);
    AddWordsStable(t, ws);
    assert Reserved(r.word2index);
    AddWordsIndices(t, ws);
    assert forall i :: i in r.index2word ==> 0 <= i < r.numWords;
  }

  lemma AddWordValid(t: Tables, w: string)
    requires TablesValid(t)
    ensures TablesValid(Registry.AddWord(t, w))
  {
    var r := Registry.AddWord(t, w);
    AddWordRegistered(t, 0, w);
    assert Registered(r, 0);
    AddWordStable(t, w);
    assert Reserved(r.word2index);
    assert forall i :: i in r.index2word ==> 0 <= i < r.numWords;
  }

  /** `add_sentence` and `sentence_to_index` tokenize identically, so once a
      sentence has been ingested its encoding holds NEW_WORD (3) exactly at
      the positions whose token is literally `new_word`. */
  lemma EncodeAfterIngest(t: Tables, sentence: string)
    requires TablesValid(t)
    ensures var toks := Tokens(sentence);
      var r := Framed(AddWords(t, toks).word2index, toks, NEW_WORD);
      forall i :: 0 <= i < |toks| ==> (r[i + 1] == NEW_WORD <==> toks[i] == "new_word")
  {
    var toks := Tokens(sentence);
    TokensShape(sentence);
    EncodeRegistered(t, toks);
  }

  /** The same for any lowercase token sequence registered before encoding. */
  lemma EncodeRegistered(t: Tables, toks: seq<string>)
    requires TablesValid(t)
    requires forall k :: 0 <= k < |toks| ==> IsLowered(toks[k])
    ensures var r := Framed(AddWords(t, toks).word2index, toks, NEW_WORD);
      forall i :: 0 <= i < |toks| ==> (r[i + 1] == NEW_WORD <==> toks[i] == "new_word")
  {
    var m := AddWords(t, toks).word2index;
    AddWordsValid(t, toks);
    assert Reserved(m);
    assert RESERVED[3] == "new_word";
    assert "new_word" in m && m["new_word"] == NEW_WORD;
    RegisteredInjective(AddWords(t, toks), 0);
    forall i | 0 <= i < |toks|
      ensures Lower(toks[i]) == toks[i] && Lower(toks[i]) in m
    {
      LowerFixesLowered(toks[i]);
      assert toks[i] in Words(toks);
    }
    NewWordOnlyForNewWord(m, toks);
  }

  /** The largest entry of `s`, or 0 for an empty `s`. */
  function MaxOf(s: seq<int>): (m: int)
    ensures forall k :: 0 <= k < |s| ==> s[k] <= m
    ensures m == 0 || m in s
  {
    if s == [] then 0
    else
      var init := s[..|s| - 1];
      assert s == init + [s[|s| - 1]];
      Max(MaxOf(init), s[|s| - 1])
  }

  lemma MaxOfAppend(s: seq<int>, x: int)
    ensures MaxOf(s + [x]) == Max(MaxOf(s), x)
  {
    assert (s + [x])[..|s|] == s;
  }

  class Vocabulary {
    const name: string
    var word2index: map<string, int>
    var word2count: map<string, int>
    var index2word: map<int, string>
    var numWords: int
    var numSentences: int
    var longestSentence: int
    var sentenceNumber: seq<int>
    const sentenceTrim: int

    /** The vocabulary's dictionaries and counter as one value. */
    ghost function AsTables(): Tables
      reads this`word2index, this`word2count, this`index2word, this`numWords
    {
      Tables(word2index, word2count, index2word, numWords)
    }

    /** The object invariant: the dictionaries are valid, one entry of
        `sentence_number` per ingested sentence, each at least 1, and
        `longest_sentence` is their maximum. */
    ghost predicate Valid()
      reads this
    {
      TablesOk() && StatsOk()
    }

    ghost predicate TablesOk()
      reads this`word2index, this`word2count, this`index2word, this`numWords
    {
      TablesValid(AsTables())
    }

    ghost predicate StatsOk()
      reads this`numSentences, this`longestSentence, this`sentenceNumber
    {
      && numSentences == |sentenceNumber|
      && (forall k :: 0 <= k < |sentenceNumber| ==> sentenceNumber[k] >= 1)
      && longestSentence == MaxOf(sentenceNumber)
    }

    /** `__init__(name, sentence_trim)`. */
    constructor (name: string, sentenceTrim: int)
      ensures Valid()
      ensures AsTables() == InitialTables()
      ensures this.name == name && this.sentenceTrim == sentenceTrim
      ensures numSentences == 0 && longestSentence == 0 && sentenceNumber == []
    {
      this.name := name;
      word2index := map["new_word" := NEW_WORD, "PAD" := PAD, "SOS" := SOS, "EOS" := EOS,
                        "<num>" := START_NUMBER, "</num>" := END_NUMBER];
      word2count := map["new_word" := 1, "PAD" := 1, "SOS" := 1, "EOS" := 1,
                        "<num>" := 1, "</num>" := 1];
      index2word := map[PAD := "PAD", SOS := "SOS", EOS := "EOS", NEW_WORD := "new_word",
                        START_NUMBER := "<num>", END_NUMBER := "</num>"];
      numWords := 6;
      numSentences := 0;
      longestSentence := 0;
      sentenceNumber := [];
      this.sentenceTrim := sentenceTrim;
      InitialTablesValid();
    }

    /** `add_word(word)`. Its effect on the dictionaries is
        `Registry.AddWord`, which keeps `Valid()` by `AddWordValid`. */
    method AddWord(word: string)
      requires word2count.Keys == word2index.Keys
      modifies this`word2index, this`word2count, this`index2word, this`numWords
      ensures AsTables() == Registry.AddWord(old(AsTables()), word)
    {
      if word !in word2index {
        word2index := word2index[word := numWords];
        word2count := word2count[word := 1];
        index2word := index2word[numWords := word];
        numWords := numWords + 1;
      } else {
        word2count := word2count[word := word2count[word] + 1];
      }
    }

    /** `add_sentence(sentence)`: tokenize, register every token in order,
        then record the token count. */
    method AddSentence(sentence: string)
      requires Valid()
      modifies this`word2index, this`word2count, this`index2word, this`numWords
      modifies this`numSentences, this`longestSentence, this`sentenceNumber
      ensures Valid()
      ensures AsTables() == AddWords(old(AsTables()), Tokens(sentence))
      ensures numSentences == old(numSentences) + 1
      ensures sentenceNumber == old(sentenceNumber) + [|Tokens(sentence)|]
      ensures longestSentence == Max(old(longestSentence), |Tokens(sentence)|)
      ensures forall k :: 0 <= k < |Tokens(sentence)| ==> Tokens(sentence)[k] in word2index
    {
      var formatted := FormatSentence(sentence);
      TokensShape(sentence);
      AddTokens(formatted);
    }

    /** The body of `add_sentence` after tokenizing: `add_word` on each
        token in order, then the sentence statistics. */
    method AddTokens(formatted: seq<string>)
      requires TablesOk() && StatsOk()
      requires |formatted| >= 1
      modifies this`word2index, this`word2count, this`index2word, this`numWords
      modifies this`numSentences, this`longestSentence, this`sentenceNumber
      ensures TablesOk() && StatsOk()
      ensures AsTables() == AddWords(old(AsTables()), formatted)
      ensures numSentences == old(numSentences) + 1
      ensures sentenceNumber == old(sentenceNumber) + [|formatted|]
      ensures longestSentence == Max(old(longestSentence), |formatted|)
      ensures forall k :: 0 <= k < |formatted| ==> formatted[k] in word2index
    {
      var sentenceLen := AddWordsOf(formatted);
      AddWordsValid(old(AsTables()), formatted);
      AddWordsContains(old(AsTables()), formatted);
      assert TablesOk();
      RecordLength(sentenceLen);
    }

    /** The statistics `add_sentence` keeps: the longest sentence so far, the
        number of sentences and the length of each. */
    method RecordLength(sentenceLen: int)
      requires StatsOk()
      requires sentenceLen >= 1
      modifies this`numSentences, this`longestSentence, this`sentenceNumber
      ensures StatsOk()
      ensures numSentences == old(numSentences) + 1
      ensures sentenceNumber == old(sentenceNumber) + [sentenceLen]
      ensures longestSentence == Max(old(longestSentence), sentenceLen)
    {
      if sentenceLen > longestSentence {
        longestSentence := sentenceLen;
      }
      numSentences := numSentences + 1;
      MaxOfAppend(sentenceNumber, sentenceLen);
      sentenceNumber := sentenceNumber + [sentenceLen];
    }

    /** The word loop of `add_sentence`: `add_word` on each token in order,
        counting them. */
    method AddWordsOf(formatted: seq<string>) returns (sentenceLen: int)
      requires word2count.Keys == word2index.Keys
      modifies this`word2index, this`word2count, this`index2word, this`numWords
      ensures AsTables() == AddWords(old(AsTables()), formatted)
      ensures sentenceLen == |formatted|
    {
      sentenceLen := 0;
      var i := 0;
      while i < |formatted|
        invariant 0 <= i <= |formatted|
        invariant sentenceLen == i
        invariant AsTables() == AddWords(old(AsTables()), formatted[..i])
      {
        sentenceLen := sentenceLen + 1;
        AddWordsStep(old(AsTables()), formatted, i);
        AddWord(formatted[i]);
        i := i + 1;
      }
      assert formatted[..i] == formatted;
    }

    /** `to_word(index)`: the word stored at `index`, or None where Python
        raises KeyError. */
    function ToWord(index: int): (r: Option<string>)
      reads this
      requires Valid()
      ensures r.Some? <==> 0 <= index < numWords
      ensures r.Some? ==> r.value in word2index && word2index[r.value] == index
    {
      if index in index2word then Some(index2word[index]) else None
    }

    /** `to_index(word)`: the index of `word.lower()`, or None where Python
        raises KeyError. */
    function ToIndex(word: string): (r: Option<int>)
      reads this
      requires Valid()
      ensures r.Some? <==> Lower(word) in word2index
      ensures r.Some? ==> word2index[Lower(word)] == r.value && 0 <= r.value < numWords
      ensures r.Some? ==> ToWord(r.value) == Some(Lower(word))
    {
      var w := Lower(word);
      if w in word2index then Some(word2index[w]) else None
    }

    /** For a registered lowercase word, `to_word(to_index(w)) == w`. */
    lemma WordRoundTrip(w: string)
      requires Valid()
      requires w in word2index && IsLowered(w)
      ensures ToIndex(w).Some? && ToWord(ToIndex(w).value) == Some(w)
    {
      LowerFixesLowered(w);
    }

    /** Because `to_index` lowercases its argument, the upper-case reserved
        keys are out of its reach: `to_index("PAD")` fails unless "pad" was
        registered. */
    lemma UpperReservedUnreachable()
      requires Valid()
      requires "pad" !in word2index
      ensures ToIndex("PAD") == None
    {
      assert Lower("PAD") == "pad";
    }

    /** `sentence_to_index(sentence, padding)`: SOS, the index of each token
        (NEW_WORD for unknown ones), EOS, then optionally padded with PAD or
        truncated to `sentence_trim` entries. Nothing is registered. */
    method SentenceToIndex(sentence: string, padding: bool) returns (r: seq<int>)
      requires Valid()
      ensures var framed := Framed(word2index, Tokens(sentence), NEW_WORD);
        r == if padding then PadTrim(framed, sentenceTrim) else framed
      ensures !padding ==> |r| == |Tokens(sentence)| + 2 && r[0] == SOS && r[|r| - 1] == EOS
      ensures padding && sentenceTrim >= 0 ==> |r| == sentenceTrim
    {
      var formatted := FormatSentence(sentence);
      var encoded := EncodeTokens(formatted);
      if padding {
        r := PadAndTrim(encoded, sentenceTrim);
        if sentenceTrim >= 0 {
          PadTrimLength(encoded, sentenceTrim);
        }
      } else {
        r := encoded;
      }
    }

    /** The lookup loop of `sentence_to_index`: SOS, the index of each token
        with NEW_WORD for an unknown one, EOS. */
    method EncodeTokens(formatted: seq<string>) returns (encoded: seq<int>)
      requires Valid()
      ensures encoded == Framed(word2index, formatted, NEW_WORD)
    {
      encoded := [SOS];
      var i := 0;
      while i < |formatted|
        invariant 0 <= i <= |formatted|
        invariant encoded == [SOS] + LookupAll(word2index, formatted[..i], NEW_WORD)
      {
        LookupAllStep(word2index, formatted, i, NEW_WORD);
        var idx := ToIndex(formatted[i]);
        if idx.Some? {
          encoded := encoded + [idx.value];
        } else {
          NewWordIndex();
          var unknown := ToIndex("new_word");
          encoded := encoded + [unknown.value];
        }
        i := i + 1;
      }
      encoded := encoded + [EOS];
      assert formatted[..i] == formatted;
    }

    /** `to_index("new_word")` always succeeds, with NEW_WORD. */
    lemma NewWordIndex()
      requires Valid()
      ensures ToIndex("new_word") == Some(NEW_WORD)
    {
      NewWordLowered();
      assert RESERVED[3] == "new_word";
    }
  }
}
