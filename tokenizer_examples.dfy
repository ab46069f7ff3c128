/** Worked examples of the number-splitting tokenizer's cleaning step:
    punctuation gets spaces on both sides, and a space already next to a
    comma leaves an empty word behind. */
module TokenizerExamples {
  import opened Text
  import opened NumericTokenizer

  // The cleaning chain is followed one call at a time, each step a lemma of
  // its own.

  lemma SpaceBar()
    ensures ReplaceChar("a,b:c|d", '|', " | ") == "a,b:c | d"
  {
    assert "a,b:c|d" == "a,b:c" + ['|'] + "d";
    ReplaceCharOnce("a,b:c", "d", '|', " | ");
    assert "a,b:c" + " | " + "d" == "a,b:c | d";
  }

  lemma SpaceComma()
    ensures ReplaceChar("a,b:c | d", ',', " , ") == "a , b:c | d"
  {
    assert "a,b:c | d" == "a" + [','] + "b:c | d";
    ReplaceCharOnce("a", "b:c | d", ',', " , ");
    assert "a" + " , " + "b:c | d" == "a , b:c | d";
  }

  lemma SpaceColon()
    ensures ReplaceChar("a , b:c | d", ':', " : ") == "a , b : c | d"
  {
    assert "a , b:c | d" == "a , b" + [':'] + "c | d";
    ReplaceCharOnce("a , b", "c | d", ':', " : ");
    assert "a , b" + " : " + "c | d" == "a , b : c | d";
  }

  /** `"a,b:c|d"` is cleaned to `"a , b : c | d"`: each of the three
      punctuation marks gets a space on either side. */
  lemma CleanPunctuation()
    ensures Clean("a,b:c|d") == "a , b : c | d"
  {
    SpaceBar();
    SpaceComma();
    SpaceColon();
    NoNewlinePunctuated();
    StripPunctuated();
  }

  lemma NoNewlinePunctuated()
    ensures RemoveNewlines("a , b : c | d") == "a , b : c | d"
  {
    NoNewline("a , b : c | d");
  }

  lemma StripPunctuated()
    ensures Strip("a , b : c | d") == "a , b : c | d"
  {
    StripUnchanged("a , b : c | d");
  }

  lemma SpaceCommaBeforeSpace()
    ensures ReplaceChar("a, b", ',', " , ") == "a ,  b"
  {
    assert "a, b" == "a" + [','] + " b";
    ReplaceCharOnce("a", " b", ',', " , ");
    assert "a" + " , " + " b" == "a ,  b";
  }

  /** `"a, b"` is cleaned to `"a ,  b"`: the space already after the comma
      makes two spaces in a row. */
  lemma CleanDoubleSpace()
    ensures Clean("a, b") == "a ,  b"
  {
    NoBar();
    SpaceCommaBeforeSpace();
    NoColonDoubleSpace();
    NoNewlineDoubleSpace();
    StripDoubleSpace();
  }

  lemma NoBar()
    ensures ReplaceChar("a, b", '|', " | ") == "a, b"
  {
    ReplaceCharAbsent("a, b", '|', " | ");
  }

  lemma NoColonDoubleSpace()
    ensures ReplaceChar("a ,  b", ':', " : ") == "a ,  b"
  {
    ReplaceCharAbsent("a ,  b", ':', " : ");
  }

  lemma NoNewlineDoubleSpace()
    ensures RemoveNewlines("a ,  b") == "a ,  b"
  {
    NoNewline("a ,  b");
  }

  lemma StripDoubleSpace()
    ensures Strip("a ,  b") == "a ,  b"
  {
    StripUnchanged("a ,  b");
  }

  lemma SplitPunctuation()
    ensures Split("a , b : c | d") == ["a", ",", "b", ":", "c", "|", "d"]
  {
    var ws := ["a", ",", "b", ":", "c", "|", "d"];
    assert JoinSpaces(ws) == "a , b : c | d";
    SplitJoin(ws);
  }

  lemma SplitDoubleSpace()
    ensures Split("a ,  b") == ["a", ",", "", "b"]
  {
    var ws := ["a", ",", "", "b"];
    assert JoinSpaces(ws) == "a ,  b";
    SplitJoin(ws);
  }

  /** Words of one non-numeric, non-capital character, or empty, are
      tokens of their own. */
  lemma FormatShortWords(ws: seq<string>)
    requires forall k :: 0 <= k < |ws| ==> |ws[k]| <= 1
    requires forall k :: 0 <= k < |ws| ==> ws[k] == [] || (!IsNumChar(ws[k][0]) && !IsUpperChar(ws[k][0]))
    ensures FormatWords(ws) == ws
  {
    FormatWordsPlain(ws);
  }

  /** The cleaned `"a,b:c|d"` splits into seven words, which pass through
      as tokens unchanged. */
  lemma TokensPunctuation()
    ensures Tokens("a,b:c|d") == ["a", ",", "b", ":", "c", "|", "d"]
  {
    CleanPunctuation();
    SplitPunctuation();
    FormatPunctuation();
  }

  lemma FormatPunctuation()
    ensures FormatWords(["a", ",", "b", ":", "c", "|", "d"]) == ["a", ",", "b", ":", "c", "|", "d"]
  {
    FormatShortWords(["a", ",", "b", ":", "c", "|", "d"]);
  }

  /** Consecutive spaces yield an empty word, and so an empty token:
      `"a, b"` gives `a`, `,`, the empty token and `b`. */
  lemma TokensDoubleSpace()
    ensures Tokens("a, b") == ["a", ",", "", "b"]
  {
    CleanDoubleSpace();
    SplitDoubleSpace();
    FormatDoubleSpace();
  }

  lemma FormatDoubleSpace()
    ensures FormatWords(["a", ",", "", "b"]) == ["a", ",", "", "b"]
  {
    FormatShortWords(["a", ",", "", "b"]);
  }
}
