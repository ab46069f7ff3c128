/** The tokenizer of the number-splitting vocabulary: punctuation spacing,
    newline removal, stripping, splitting on single spaces, and the explosion
    of numeric words into `<num>`, one token per character, `</num>`. */
module NumericTokenizer {
  import opened Text

  /** The cleaning chain `s.replace('|',' | ').replace(',',' , ')
      .replace(':',' : ').replace('\n','').strip()`: the result holds no
      newline and neither starts nor ends with whitespace. */
  function Clean(s: string): (r: string)
    ensures '\n' !in r
    ensures r == [] || (!IsSpace(r[0]) && !IsSpace(r[|r| - 1]))
  {
    var joined := RemoveNewlines(ReplaceChar(ReplaceChar(ReplaceChar(s, '|', " | "), ',', " , "), ':', " : "));
    StripKeepsAbsent(joined, '\n');
    Strip(joined)
  }

  /** `[c for c in w]`: one single-character token per character, which
      concatenate back to `w`. */
  function Chars(w: string): (r: seq<string>)
    ensures |r| == |w|
    ensures forall k :: 0 <= k < |r| ==> r[k] == [w[k]]
    ensures Flatten(r) == w
  {
    if w == [] then [] else [[w[0]]] + Chars(w[1..])
  }

  /** The tokens one word contributes: `<num>`, its characters and `</num>`
      for a numeric word, its lowercase form otherwise. */
  function Explode(w: string): (r: seq<string>)
    ensures IsNumeric(w) ==>
      && |r| == |w| + 2 && r[0] == "<num>" && r[|r| - 1] == "</num>"
      && forall k :: 1 <= k < |r| - 1 ==> r[k] == [w[k - 1]]
    ensures !IsNumeric(w) ==> r == [Lower(w)]
  {
    if IsNumeric(w) then
      ["<num>"] + Chars(w) + ["</num>"]
    else [Lower(w)]
  }

  /** The tokens of a sequence of words, in order: at least one per word. */
  function FormatWords(ws: seq<string>): (r: seq<string>)
    ensures |r| >= |ws|
  {
    if ws == [] then [] else FormatWords(ws[..|ws| - 1]) + Explode(ws[|ws| - 1])
  }

  /** The token sequence both `add_sentence` and `sentence_to_index` derive
      from a sentence: never empty, since `split` yields at least one word. */
  function Tokens(sentence: string): (r: seq<string>)
    ensures |r| >= 1
  {
    FormatWords(Split(Clean(sentence)))
  }

  /** Every token one word contributes is in lowercase form. */
  lemma ExplodeLowered(w: string)
    ensures forall k :: 0 <= k < |Explode(w)| ==> IsLowered(Explode(w)[k])
  {
    var e := Explode(w);
    if IsNumeric(w) {
      assert forall k :: 1 <= k < |e| - 1 ==> e[k] == [w[k - 1]];
    } else {
      LowerIsLowered(w);
    }
  }

  /** Every word yields at least one token, and every token is already in
      lowercase form, so the lowercasing inside `to_index` leaves it
      unchanged. */
  lemma {:induction false} FormatWordsShape(ws: seq<string>)
    ensures |FormatWords(ws)| >= |ws|
    ensures forall k :: 0 <= k < |FormatWords(ws)| ==> IsLowered(FormatWords(ws)[k])
  {
    if ws != [] {
      var init := ws[..|ws| - 1];
      FormatWordsShape(init);
      ExplodeLowered(ws[|ws| - 1]);
      LoweredAppend(FormatWords(init), Explode(ws[|ws| - 1]));
    }
  }

  /** Appending two token lists in lowercase form gives one. */
  lemma LoweredAppend(p: seq<string>, e: seq<string>)
    requires forall k :: 0 <= k < |p| ==> IsLowered(p[k])
    requires forall k :: 0 <= k < |e| ==> IsLowered(e[k])
    ensures forall k :: 0 <= k < |p + e| ==> IsLowered((p + e)[k])
  {
    forall k | 0 <= k < |p + e|
      ensures IsLowered((p + e)[k])
    {
      if k < |p| {
        assert (p + e)[k] == p[k];
      } else {
        assert (p + e)[k] == e[k - |p|];
      }
    }
  }

  /** A sentence always yields at least one token (`split` yields at least one
      word, possibly empty), and all tokens are lowercase. */
  lemma TokensShape(sentence: string)
    ensures |Tokens(sentence)| >= 1
    ensures forall k :: 0 <= k < |Tokens(sentence)| ==> IsLowered(Tokens(sentence)[k])
  {
    FormatWordsShape(Split(Clean(sentence)));
  }

  lemma FormatWordsStep(ws: seq<string>, i: nat)
    requires i < |ws|
    ensures FormatWords(ws[..i + 1]) == FormatWords(ws[..i]) + Explode(ws[i])
  {
    assert ws[..i + 1][..i] == ws[..i];
  }

  /** Words that are not numeric and already lowercase pass through
      unchanged, one token each. */
  lemma {:induction false} FormatWordsPlain(ws: seq<string>)
    requires forall k :: 0 <= k < |ws| ==> !IsNumeric(ws[k]) && IsLowered(ws[k])
    ensures FormatWords(ws) == ws
  {
    if ws != [] {
      FormatWordsPlain(ws[..|ws| - 1]);
      LowerFixesLowered(ws[|ws| - 1]);
    }
  }

  /** `"12.5"` is exploded character by character. */
  lemma ExplodeDecimal()
    ensures Explode("12.5") == ["<num>", "1", "2", ".", "5", "</num>"]
  {
    assert IsNumeric("12.5");
  }

  /** A lone `-` matches `[-\d\.]+` and is exploded too. */
  lemma ExplodeMinus()
    ensures Explode("-") == ["<num>", "-", "</num>"]
  {
    assert IsNumeric("-");
  }

  /** A word with a letter in it is only lowercased, digits included. */
  lemma ExplodeMixed()
    ensures Explode("A1") == ["a1"]
  {
    assert !IsNumChar("A1"[0]);
    assert Lower("A1") == "a1";
  }

  /** The tokenizing code shared by `add_sentence` and `sentence_to_index`:
      clean the sentence, then explode or lowercase each word. */
  method FormatSentence(sentence: string) returns (formatted: seq<string>)
    ensures formatted == Tokens(sentence)
  {
    var cleaned := Clean(sentence);
    formatted := FormatCleaned(cleaned);
  }

  /** The word loop on a cleaned sentence: numeric words are recognised by
      membership in the `re.findall` result, which for split words is the
      same as `IsNumeric`. */
  method FormatCleaned(cleaned: string) returns (formatted: seq<string>)
    ensures formatted == FormatWords(Split(cleaned))
  {
    var numbers := Runs(cleaned);
    var words := Split(cleaned);
    formatted := [];
    var i := 0;
    while i < |words|
      invariant 0 <= i <= |words|
      invariant formatted == FormatWords(words[..i])
    {
      var word := words[i];
      FormatWordsStep(words, i);
      assert word in numbers <==> IsNumeric(word) by {
        RunsMatchNumericWords(cleaned, word);
      }
      if word in numbers {
        var exploded := ["<num>"] + Chars(word) + ["</num>"];
        formatted := AppendEach(formatted, exploded);
      } else {
        formatted := formatted + [Lower(word)];
      }
      i := i + 1;
    }
    assert words[..i] == words;
  }

  /** `for c in word: formattedSentence.append(c)`. */
  method AppendEach(formatted: seq<string>, exploded: seq<string>) returns (r: seq<string>)
    ensures r == formatted + exploded
  {
    r := formatted;
    var j := 0;
    while j < |exploded|
      invariant 0 <= j <= |exploded|
      invariant r == formatted + exploded[..j]
    {
      r := r + [exploded[j]];
      j := j + 1;
      assert exploded[..j] == exploded[..j - 1] + [exploded[j - 1]];
    }
    assert exploded[..j] == exploded;
  }
}
