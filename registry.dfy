/** The bookkeeping both `Vocabulary` classes share: the `word2index`,
    `word2count` and `index2word` dictionaries with the `num_words` counter,
    and `add_word`, which is written identically in both. */
module Registry {

  datatype Option<T> = None | Some(value: T)

  /** The three dictionaries of a vocabulary and its next free index. */
  datatype Tables = Tables(
    word2index: map<string, int>,
    word2count: map<string, int>,
    index2word: map<int, string>,
    numWords: int)

  function Max(a: int, b: int): int {
    if a >= b then a else b
  }

  /** The set of words occurring in `ws`. */
  function Words(ws: seq<string>): set<string> {
    set w | w in ws
  }

  /** `word2count.get(w, 0)`: how often `w` was registered so far. */
  function Count(m: map<string, int>, w: string): int {
    if w in m then m[w] else 0
  }

  /** `add_word(w)`: a new word gets the next index and a count of 1; a known
      word only has its count incremented. */
  function AddWord(t: Tables, w: string): (r: Tables)
    requires t.word2count.Keys == t.word2index.Keys
    ensures r.word2count.Keys == r.word2index.Keys == t.word2index.Keys + {w}
  {
    if w !in t.word2index then
      Tables(t.word2index[w := t.numWords], t.word2count[w := 1],
             t.index2word[t.numWords := w], t.numWords + 1)
    else
      t.(word2count := t.word2count[w := t.word2count[w] + 1])
  }

  /** `add_word` applied to each word of `ws` in order. */
  function AddWords(t: Tables, ws: seq<string>): (r: Tables)
    requires t.word2count.Keys == t.word2index.Keys
    ensures r.word2count.Keys == r.word2index.Keys == t.word2index.Keys + Words(ws)
  {
    if ws == [] then t
    else
      var init := ws[..|ws| - 1];
      assert ws == init + [ws[|ws| - 1]];
      assert Words(ws) == Words(init) + {ws[|ws| - 1]};
      AddWord(AddWords(t, init), ws[|ws| - 1])
  }

  lemma AddWordsStep(t: Tables, ws: seq<string>, i: nat)
    requires t.word2count.Keys == t.word2index.Keys
    requires i < |ws|
    ensures AddWords(t, ws[..i + 1]) == AddWord(AddWords(t, ws[..i]), ws[i])
  {
    assert ws[..i + 1][..i] == ws[..i];
  }

  /** Every word of `ws` is registered afterwards. */
  lemma AddWordsContains(t: Tables, ws: seq<string>)
    requires t.word2count.Keys == t.word2index.Keys
    ensures forall k :: 0 <= k < |ws| ==> ws[k] in AddWords(t, ws).word2index
  {
    assert forall k :: 0 <= k < |ws| ==> ws[k] in Words(ws);
  }

  /** The registered words are in one-to-one correspondence with the indices
      `lo .. numWords - 1`: `word2index` and `index2word` are mutual inverses
      on them, every registered word has a count of at least 1, and
      `numWords - lo` words are registered. */
  ghost predicate Registered(t: Tables, lo: int) {
    && lo <= t.numWords
    && |t.word2index| == t.numWords - lo
    && t.word2count.Keys == t.word2index.Keys
    && (forall w :: w in t.word2count ==> t.word2count[w] >= 1)
    && (forall w :: w in t.word2index ==>
          && lo <= t.word2index[w] < t.numWords
          && t.word2index[w] in t.index2word
          && t.index2word[t.word2index[w]] == w)
    && (forall i :: lo <= i < t.numWords ==>
          && i in t.index2word
          && t.index2word[i] in t.word2index
          && t.word2index[t.index2word[i]] == i)
  }

  /** Distinct registered words have distinct indices. */
  lemma RegisteredInjective(t: Tables, lo: int)
    requires Registered(t, lo)
    ensures forall v, w :: v in t.word2index && w in t.word2index && v != w ==>
              t.word2index[v] != t.word2index[w]
  {
  }

  /** An unseen word gets index `numWords`, which now maps back to it, a
      count of 1, and `numWords` grows by exactly one; every other entry of
      `word2index`, `word2count` and `index2word` is unchanged. */
  lemma AddWordNew(t: Tables, w: string)
    requires t.word2count.Keys == t.word2index.Keys
    requires w !in t.word2index
    ensures var r := AddWord(t, w);
      && r.word2index[w] == t.numWords
      && r.index2word[t.numWords] == w
      && r.word2count[w] == 1
      && r.numWords == t.numWords + 1
      && (forall v :: v in t.word2index ==> r.word2index[v] == t.word2index[v])
      && (forall v :: v in t.word2count ==> r.word2count[v] == t.word2count[v])
      && (forall i :: i in t.index2word && i != t.numWords ==>
            i in r.index2word && r.index2word[i] == t.index2word[i])
      && r.index2word.Keys == t.index2word.Keys + {t.numWords}
  {
  }

  /** A known word only has its count incremented: its index, `numWords` and
      `index2word` stay as they were. */
  lemma AddWordKnown(t: Tables, w: string)
    requires t.word2count.Keys == t.word2index.Keys
    requires w in t.word2index
    ensures var r := AddWord(t, w);
      && r.word2index == t.word2index
      && r.index2word == t.index2word
      && r.numWords == t.numWords
      && r.word2count == t.word2count[w := t.word2count[w] + 1]
  {
  }

  /** After an unseen word is registered, every registered word still maps to
      an index in range that maps back to it. */
  lemma AddNewWordForward(t: Tables, lo: int, w: string)
    requires Registered(t, lo)
    requires w !in t.word2index
    ensures var r := AddWord(t, w);
      forall v :: v in r.word2index ==>
        && lo <= r.word2index[v] < r.numWords
        && r.word2index[v] in r.index2word
        && r.index2word[r.word2index[v]] == v
  {
    var r := AddWord(t, w);
    assert r.word2index == t.word2index[w := t.numWords];
    assert r.index2word == t.index2word[t.numWords := w];
    forall v | v in r.word2index
      ensures lo <= r.word2index[v] < r.numWords && r.word2index[v] in r.index2word
      ensures r.index2word[r.word2index[v]] == v
    {
      if v != w {
        assert r.word2index[v] == t.word2index[v] < t.numWords;
      }
    }
  }

  /** After an unseen word is registered, every index in range still names a
      registered word that maps back to it. */
  lemma AddNewWordBackward(t: Tables, lo: int, w: string)
    requires Registered(t, lo)
    requires w !in t.word2index
    ensures var r := AddWord(t, w);
      forall i :: lo <= i < r.numWords ==>
        && i in r.index2word
        && r.index2word[i] in r.word2index
        && r.word2index[r.index2word[i]] == i
  {
    var r := AddWord(t, w);
    assert r.word2index == t.word2index[w := t.numWords];
    assert r.index2word == t.index2word[t.numWords := w];
    forall i | lo <= i < r.numWords
      ensures i in r.index2word && r.index2word[i] in r.word2index
      ensures r.word2index[r.index2word[i]] == i
    {
      if i < t.numWords {
        assert r.index2word[i] == t.index2word[i] != w;
      }
    }
  }

  /** Registering an unseen word keeps the correspondence: it takes the next
      index. */
  lemma AddNewWordRegistered(t: Tables, lo: int, w: string)
    requires Registered(t, lo)
    requires w !in t.word2index
    ensures Registered(AddWord(t, w), lo)
  {
    AddNewWordForward(t, lo, w);
    AddNewWordBackward(t, lo, w);
  }

  /** Registering a known word again only bumps its count. */
  lemma AddKnownWordRegistered(t: Tables, lo: int, w: string)
    requires Registered(t, lo)
    requires w in t.word2index
    ensures Registered(AddWord(t, w), lo)
  {
    var r := AddWord(t, w);
    assert r.word2index == t.word2index && r.index2word == t.index2word;
    assert r.numWords == t.numWords;
    assert r.word2count == t.word2count[w := t.word2count[w] + 1];
  }

  /** `add_word` keeps the one-to-one correspondence between registered words
      and indices. */
  lemma AddWordRegistered(t: Tables, lo: int, w: string)
    requires Registered(t, lo)
    ensures Registered(AddWord(t, w), lo)
  {
    if w in t.word2index {
      AddKnownWordRegistered(t, lo, w);
    } else {
      AddNewWordRegistered(t, lo, w);
    }
  }

  /** Registering a sequence of words keeps the correspondence. */
  lemma {:induction false} AddWordsRegistered(t: Tables, lo: int, ws: seq<string>)
    requires Registered(t, lo)
    ensures Registered(AddWords(t, ws), lo)
  {
    if ws != [] {
      AddWordsRegistered(t, lo, ws[..|ws| - 1]);
      AddWordRegistered(AddWords(t, ws[..|ws| - 1]), lo, ws[|ws| - 1]);
    }
  }

  lemma AddWordStable(t: Tables, w: string)
    requires t.word2count.Keys == t.word2index.Keys
    ensures var r := AddWord(t, w);
      && t.numWords <= r.numWords
      && (forall v :: v in t.word2index ==> r.word2index[v] == t.word2index[v])
      && (forall i :: i in t.index2word && i < t.numWords ==>
            i in r.index2word && r.index2word[i] == t.index2word[i])
  {
  }

  /** Index assignment is permanent: registering more words never changes the
      index of a word already registered, nor the word stored at an index
      below the old `numWords`, and `numWords` never decreases. */
  lemma {:induction false} AddWordsStable(t: Tables, ws: seq<string>)
    requires t.word2count.Keys == t.word2index.Keys
    ensures var r := AddWords(t, ws);
      && t.numWords <= r.numWords
      && (forall v :: v in t.word2index ==> r.word2index[v] == t.word2index[v])
      && (forall i :: i in t.index2word && i < t.numWords ==>
            i in r.index2word && r.index2word[i] == t.index2word[i])
  {
    if ws != [] {
      var init := ws[..|ws| - 1];
      AddWordsStable(t, init);
      AddWordStable(AddWords(t, init), ws[|ws| - 1]);
    }
  }

  /** The indices `index2word` holds after registering `ws`: the old ones and
      every newly assigned index. */
  lemma {:induction false} AddWordsIndices(t: Tables, ws: seq<string>)
    requires t.word2count.Keys == t.word2index.Keys
    ensures var r := AddWords(t, ws);
      forall i :: i in r.index2word <==> i in t.index2word || t.numWords <= i < r.numWords
  {
    if ws != [] {
      var init := ws[..|ws| - 1];
      AddWordsIndices(t, init);
      AddWordsStable(t, init);
    }
  }

  /** When `numWords` has not moved, every word was already known and
      `index2word` is untouched. */
  lemma {:induction false} AddWordsNoGrowth(t: Tables, ws: seq<string>)
    requires t.word2count.Keys == t.word2index.Keys
    requires AddWords(t, ws).numWords == t.numWords
    ensures AddWords(t, ws).index2word == t.index2word
  {
    if ws != [] {
      var init := ws[..|ws| - 1];
      AddWordsStable(t, init);
      AddWordsNoGrowth(t, init);
    }
  }

  /** Each word's count grows by exactly its number of occurrences in `ws`. */
  lemma {:induction false} AddWordsCount(t: Tables, ws: seq<string>, v: string)
    requires t.word2count.Keys == t.word2index.Keys
    ensures Count(AddWords(t, ws).word2count, v) == Count(t.word2count, v) + multiset(ws)[v]
  {
    if ws != [] {
      var init := ws[..|ws| - 1];
      assert ws == init + [ws[|ws| - 1]];
      AddWordsCount(t, init, v);
    }
  }
}
