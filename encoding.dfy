/** What `sentence_to_index` builds from a token sequence, shared by both
    `Vocabulary` classes: SOS, one index per token (unknown tokens falling
    back to the `new_word` index), EOS, and the optional pad-then-truncate
    step to `sentence_trim` entries. */
module Encoding {
  import opened Text

  const PAD: int := 0
  const SOS: int := 1
  const EOS: int := 2
  const NEW_WORD: int := 3

  /** The placeholder word is already in lowercase form. */
  lemma NewWordLowered()
    ensures Lower("new_word") == "new_word"
  {
    LowerFixesLowered("new_word");
  }

  /** `to_index(tok)` with the bare `except:` turned into the default `unk`:
      the lookup lowercases the token first, and anything other than `unk`
      it answers is a registered index. */
  function Lookup(word2index: map<string, int>, tok: string, unk: int): (r: int)
    ensures Lower(tok) in word2index ==> r == word2index[Lower(tok)]
    ensures Lower(tok) !in word2index ==> r == unk
    ensures r == unk || r in word2index.Values
  {
    var w := Lower(tok);
    if w in word2index then word2index[w] else unk
  }

  /** The index of every token, in order: each entry a registered index or
      the fallback `unk`. */
  function LookupAll(word2index: map<string, int>, toks: seq<string>, unk: int): (r: seq<int>)
    ensures |r| == |toks|
    ensures forall i :: 0 <= i < |r| ==> r[i] == unk || r[i] in word2index.Values
  {
    seq(|toks|, i requires 0 <= i < |toks| => Lookup(word2index, toks[i], unk))
  }

  lemma LookupAllStep(word2index: map<string, int>, toks: seq<string>, i: nat, unk: int)
    requires i < |toks|
    ensures LookupAll(word2index, toks[..i + 1], unk)
         == LookupAll(word2index, toks[..i], unk) + [Lookup(word2index, toks[i], unk)]
  {
  }

  /** The result of `sentence_to_index(..., padding=False)` for the tokens
      `toks`: SOS, one entry per token, EOS. */
  function Framed(word2index: map<string, int>, toks: seq<string>, unk: int): (r: seq<int>)
    ensures |r| == |toks| + 2 && r[0] == SOS && r[|r| - 1] == EOS
    ensures forall i :: 0 < i < |r| - 1 ==> r[i] == unk || r[i] in word2index.Values
  {
    [SOS] + LookupAll(word2index, toks, unk) + [EOS]
  }

  /** Python's `a[:k]`: a prefix of `a`, of length `k` when `0 <= k <= |a|`,
      all of `a` when `k` is larger, and for a negative `k` all but the last
      `-k` entries (nothing when `-k > |a|`). */
  function Take(a: seq<int>, k: int): (r: seq<int>)
    ensures |r| <= |a| && r == a[..|r|]
    ensures 0 <= k <= |a| ==> |r| == k
    ensures k > |a| ==> r == a
    ensures k < 0 && -k <= |a| ==> |r| + -k == |a|
    ensures k < 0 && -k > |a| ==> r == []
  {
    if k >= 0 then a[..if k <= |a| then k else |a|]
    else a[..if |a| + k >= 0 then |a| + k else 0]
  }

  /** The PAD entries that `for i in range(n, trim)` appends after `n`
      entries: enough to reach `trim`, none when `n >= trim`. */
  function Pads(n: int, trim: int): (r: seq<int>)
    ensures forall i :: 0 <= i < |r| ==> r[i] == PAD
    ensures n < trim ==> n + |r| == trim
    ensures trim <= n ==> r == []
  {
    seq(if trim > n then trim - n else 0, _ => PAD)
  }

  /** The padding branch of `sentence_to_index`: pad `a` with PAD up to `trim`
      entries, then keep `a[:trim]`. Every entry is the entry of `a` at the
      same position, or PAD past the end of `a`. */
  function PadTrim(a: seq<int>, trim: int): (r: seq<int>)
    ensures trim >= 0 ==> |r| == trim
    ensures forall i :: 0 <= i < |r| ==> r[i] == if i < |a| then a[i] else PAD
  {
    Take(a + Pads(|a|, trim), trim)
  }

  /** The padding branch of `sentence_to_index`, step by step: append PAD
      while fewer than `trim` entries are present, then slice to `trim`. */
  method PadAndTrim(encoded: seq<int>, trim: int) returns (r: seq<int>)
    ensures r == PadTrim(encoded, trim)
  {
    var padded := encoded;
    var k := |encoded|;
    while k < trim
      invariant |encoded| <= k == |padded|
      invariant k <= trim || k == |encoded|
      invariant padded[..|encoded|] == encoded
      invariant forall j :: |encoded| <= j < k ==> padded[j] == PAD
    {
      padded := padded + [PAD];
      k := k + 1;
    }
    assert padded == encoded + Pads(|encoded|, trim);
    r := Take(padded, trim);
  }

  /** The unpadded encoding is SOS, the index of each token (unknown ones
      mapped to `unk`), then EOS: two entries more than there are tokens. */
  lemma FramedShape(word2index: map<string, int>, toks: seq<string>, unk: int)
    ensures var r := Framed(word2index, toks, unk);
      && |r| == |toks| + 2
      && r[0] == SOS && r[|r| - 1] == EOS
      && (forall i :: 0 <= i < |toks| && Lower(toks[i]) in word2index ==>
            r[i + 1] == word2index[Lower(toks[i])])
      && (forall i :: 0 <= i < |toks| && Lower(toks[i]) !in word2index ==> r[i + 1] == unk)
  {
  }

  /** With a non-negative `trim` the padded encoding has exactly `trim`
      entries: a short sequence is followed by PAD entries, a long one is cut
      to its first `trim` entries (which can drop EOS). */
  lemma PadTrimLength(a: seq<int>, trim: int)
    requires trim >= 0
    ensures var r := PadTrim(a, trim);
      && |r| == trim
      && (|a| <= trim ==> r[..|a|] == a && forall i :: |a| <= i < trim ==> r[i] == PAD)
      && (|a| > trim ==> r == a[..trim])
  {
    var p := a + Pads(|a|, trim);
    assert |a| <= trim ==> p[..trim] == p;
  }

  /** With a negative `trim` nothing is appended and `a[:trim]` drops the last
      `-trim` entries. */
  lemma PadTrimNegative(a: seq<int>, trim: int)
    requires trim < 0
    ensures PadTrim(a, trim) == a[..if |a| + trim >= 0 then |a| + trim else 0]
  {
    assert a + Pads(|a|, trim) == a;
  }

  /** When every token is registered under its lowercase form and
      `word2index` is injective with `new_word` at `NEW_WORD`, the encoding
      holds NEW_WORD exactly where the token is `new_word`. */
  lemma NewWordOnlyForNewWord(word2index: map<string, int>, toks: seq<string>)
    requires "new_word" in word2index && word2index["new_word"] == NEW_WORD
    requires forall v, w :: v in word2index && w in word2index && v != w ==>
               word2index[v] != word2index[w]
    requires forall i :: 0 <= i < |toks| ==> Lower(toks[i]) in word2index
    ensures var r := Framed(word2index, toks, NEW_WORD);
      forall i :: 0 <= i < |toks| ==> (r[i + 1] == NEW_WORD <==> Lower(toks[i]) == "new_word")
  {
  }
}
