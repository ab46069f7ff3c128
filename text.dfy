/** The Python string builtins the vocabulary code relies on, as pure
    functions: `str.lower()`, `str.replace()` with a one-character pattern,
    `str.strip()`, `str.split(" ")` and `re.findall('([-\d\.]+)', s)`. */
module Text {

  /** `str.lower()` on one character, restricted to ASCII letters. */
  function LowerChar(c: char): char {
    if 'A' <= c <= 'Z' then (c as int - 'A' as int + 'a' as int) as char else c
  }

  predicate IsUpperChar(c: char) {
    'A' <= c <= 'Z'
  }

  /** A string that `Lower` leaves unchanged. */
  predicate IsLowered(s: string) {
    forall i :: 0 <= i < |s| ==> !IsUpperChar(s[i])
  }

  /** `s.lower()` (ASCII letters only). */
  function Lower(s: string): (r: string)
    ensures |r| == |s|
    ensures forall i :: 0 <= i < |s| ==> r[i] == LowerChar(s[i])
  {
    if s == [] then [] else [LowerChar(s[0])] + Lower(s[1..])
  }

  lemma LowerIsLowered(s: string)
    ensures IsLowered(Lower(s))
  {
  }

  lemma LowerFixesLowered(s: string)
    requires IsLowered(s)
    ensures Lower(s) == s
  {
  }

  /** `s.replace(c, rep)` for a one-character pattern `c`. */
  function ReplaceChar(s: string, c: char, rep: string): (r: string)
    ensures c !in rep ==> c !in r
  {
    if s == [] then []
    else (if s[0] == c then rep else [s[0]]) + ReplaceChar(s[1..], c, rep)
  }

  lemma ReplaceCharCons(s: string, c: char, rep: string)
    requires s != []
    ensures ReplaceChar(s, c, rep) == (if s[0] == c then rep else [s[0]]) + ReplaceChar(s[1..], c, rep)
  {
  }

  /** Replacing distributes over concatenation. */
  lemma {:induction false} ReplaceCharAppend(a: string, b: string, c: char, rep: string)
    ensures ReplaceChar(a + b, c, rep) == ReplaceChar(a, c, rep) + ReplaceChar(b, c, rep)
  {
    if a == [] {
      assert a + b == b;
    } else {
      var head := if a[0] == c then rep else [a[0]];
      var x := ReplaceChar(a[1..], c, rep);
      var y := ReplaceChar(b, c, rep);
      calc {
        ReplaceChar(a + b, c, rep);
      == { ReplaceCharCons(a + b, c, rep);
           assert (a + b)[0] == a[0] && (a + b)[1..] == a[1..] + b; }
        head + ReplaceChar(a[1..] + b, c, rep);
      == { ReplaceCharAppend(a[1..], b, c, rep); }
        head + (x + y);
      == (head + x) + y;
      == { ReplaceCharCons(a, c, rep); }
        ReplaceChar(a, c, rep) + y;
      }
    }
  }

  /** A string without `c` is left unchanged. */
  lemma {:induction false} ReplaceCharAbsent(s: string, c: char, rep: string)
    requires c !in s
    ensures ReplaceChar(s, c, rep) == s
  {
    if s != [] {
      ReplaceCharAbsent(s[1..], c, rep);
    }
  }

  /** The single occurrence of `c` between `a` and `b` becomes `rep`. */
  lemma ReplaceCharOnce(a: string, b: string, c: char, rep: string)
    requires c !in a && c !in b
    ensures ReplaceChar(a + [c] + b, c, rep) == a + rep + b
  {
    ReplaceCharAppend(a + [c], b, c, rep);
    ReplaceCharAppend(a, [c], c, rep);
    ReplaceCharAbsent(a, c, rep);
    ReplaceCharAbsent(b, c, rep);
  }

  /** Lowercasing distributes over concatenation. */
  lemma LowerAppend(a: string, b: string)
    ensures Lower(a + b) == Lower(a) + Lower(b)
  {
    assert forall i :: 0 <= i < |a + b| ==> Lower(a + b)[i] == (Lower(a) + Lower(b))[i];
  }

  /** `s.replace('\n', '')`. */
  function RemoveNewlines(s: string): (r: string)
    ensures '\n' !in r
  {
    ReplaceChar(s, '\n', "")
  }

  /** Lowercasing and removing newlines commute, since `'\n'` is not a
      letter: `s.lower().replace('\n', '') == s.replace('\n', '').lower()`. */
  lemma {:induction false} LowerRemoveNewlines(s: string)
    ensures Lower(RemoveNewlines(s)) == RemoveNewlines(Lower(s))
  {
    if s != [] {
      var head := if s[0] == '\n' then "" else [s[0]];
      var rest := ReplaceChar(s[1..], '\n', "");
      LowerRemoveNewlines(s[1..]);
      ReplaceCharCons(s, '\n', "");
      ReplaceCharCons(Lower(s), '\n', "");
      assert Lower(s)[1..] == Lower(s[1..]);
      assert Lower(head) == if Lower(s)[0] == '\n' then "" else [Lower(s)[0]];
      LowerAppend(head, rest);
    }
  }

  /** A string without newlines is unchanged by `RemoveNewlines`. */
  lemma NoNewline(s: string)
    requires '\n' !in s
    ensures RemoveNewlines(s) == s
  {
    ReplaceCharAbsent(s, '\n', "");
  }

  /** The characters for which Python's `str.isspace()` holds, which
      `str.strip()` removes. */
  predicate IsSpace(c: char) {
    var k := c as int;
    9 <= k <= 13 || 28 <= k <= 32 || k == 0x85 || k == 0xA0 || k == 0x1680
    || 0x2000 <= k <= 0x200A || k == 0x2028 || k == 0x2029 || k == 0x202F
    || k == 0x205F || k == 0x3000
  }

  function StripLeft(s: string): (r: string)
    ensures |r| <= |s| && r == s[|s| - |r|..]
    ensures r == [] || !IsSpace(r[0])
    ensures forall i :: 0 <= i < |s| - |r| ==> IsSpace(s[i])
  {
    if s != [] && IsSpace(s[0]) then
      var r := StripLeft(s[1..]);
      assert s[1..][|s| - 1 - |r|..] == s[|s| - |r|..];
      r
    else s
  }

  function StripRight(s: string): (r: string)
    ensures |r| <= |s| && r == s[..|r|]
    ensures r == [] || !IsSpace(r[|r| - 1])
    ensures forall i :: |r| <= i < |s| ==> IsSpace(s[i])
  {
    if s != [] && IsSpace(s[|s| - 1]) then
      var r := StripRight(s[..|s| - 1]);
      assert s[..|s| - 1][..|r|] == s[..|r|];
      r
    else s
  }

  /** `r` is the slice of `s` starting at `i`, and only whitespace lies
      outside it. */
  predicate TrimmedAt(s: string, i: int, r: string) {
    && 0 <= i <= |s| - |r|
    && r == s[i..i + |r|]
    && (forall k :: 0 <= k < i ==> IsSpace(s[k]))
    && (forall k :: i + |r| <= k < |s| ==> IsSpace(s[k]))
  }

  /** `s.strip()`: drops whitespace from both ends, and only that, so that
      the result is a slice of `s` that neither starts nor ends with
      whitespace. */
  function Strip(s: string): (r: string)
    ensures exists i :: TrimmedAt(s, i, r)
    ensures r == [] || (!IsSpace(r[0]) && !IsSpace(r[|r| - 1]))
  {
    TrimmedBothEnds(s, StripLeft(s), StripRight(StripLeft(s)));
    StripRight(StripLeft(s))
  }

  /** Dropping whitespace from the front of `s` to get `l`, then from the
      back of `l` to get `r`, leaves `r` trimmed out of `s`. */
  lemma TrimmedBothEnds(s: string, l: string, r: string)
    requires |l| <= |s| && l == s[|s| - |l|..]
    requires forall k :: 0 <= k < |s| - |l| ==> IsSpace(s[k])
    requires |r| <= |l| && r == l[..|r|]
    requires forall k :: |r| <= k < |l| ==> IsSpace(l[k])
    ensures TrimmedAt(s, |s| - |l|, r)
  {
    var i := |s| - |l|;
    forall k | i + |r| <= k < |s|
      ensures IsSpace(s[k])
    {
      assert s[k] == l[k - i];
    }
    assert r == s[i..i + |r|];
  }

  /** `strip()` adds no character: one absent from the input is absent
      from the result. */
  lemma StripKeepsAbsent(s: string, c: char)
    requires c !in s
    ensures c !in Strip(s)
  {
    var r := Strip(s);
    var i :| TrimmedAt(s, i, r);
    assert forall k :: 0 <= k < |r| ==> r[k] == s[i + k];
  }

  /** A string that neither starts nor ends with whitespace is unchanged by
      `strip()`. */
  lemma StripUnchanged(s: string)
    requires s != [] && !IsSpace(s[0]) && !IsSpace(s[|s| - 1])
    ensures Strip(s) == s
  {
  }

  /** The position of the first `' '` in `s`. */
  function FirstSpace(s: string): (i: nat)
    requires ' ' in s
    ensures i < |s| && s[i] == ' '
    ensures forall k :: 0 <= k < i ==> s[k] != ' '
  {
    if s[0] == ' ' then 0 else 1 + FirstSpace(s[1..])
  }

  /** `s.split(" ")`: the pieces between single spaces, empty ones included. */
  function Split(s: string): (r: seq<string>)
    ensures |r| >= 1
    ensures forall k :: 0 <= k < |r| ==> ' ' !in r[k]
    decreases |s|
  {
    if ' ' in s then
      var i := FirstSpace(s);
      [s[..i]] + Split(s[i + 1..])
    else
      [s]
  }

  /** `" ".join(ws)`, the inverse of `Split`. */
  function JoinSpaces(ws: seq<string>): string
    requires |ws| >= 1
  {
    if |ws| == 1 then ws[0] else ws[0] + " " + JoinSpaces(ws[1..])
  }

  /** Splitting loses nothing: joining the pieces with single spaces gives
      the string back. */
  lemma {:induction false} JoinSplit(s: string)
    ensures JoinSpaces(Split(s)) == s
    decreases |s|
  {
    if ' ' in s {
      var i := FirstSpace(s);
      var rest := Split(s[i + 1..]);
      JoinSplit(s[i + 1..]);
      assert Split(s) == [s[..i]] + rest;
      assert ([s[..i]] + rest)[1..] == rest;
      assert s == s[..i] + " " + s[i + 1..];
    }
  }

  /** Joining space-free words with single spaces and splitting again gives
      the words back. */
  lemma {:induction false} SplitJoin(ws: seq<string>)
    requires |ws| >= 1
    requires forall k :: 0 <= k < |ws| ==> ' ' !in ws[k]
    ensures Split(JoinSpaces(ws)) == ws
  {
    if |ws| == 1 {
      assert ws == [ws[0]];
    } else {
      var rest := JoinSpaces(ws[1..]);
      assert forall k :: 0 <= k < |ws| - 1 ==> ws[1..][k] == ws[k + 1];
      SplitJoin(ws[1..]);
      assert JoinSpaces(ws) == ws[0] + " " + rest;
      SplitCons(ws[0], rest);
      assert [ws[0]] + ws[1..] == ws;
    }
  }

  /** A space-free word followed by a space is split off as the first piece. */
  lemma SplitCons(w: string, rest: string)
    requires ' ' !in w
    ensures Split(w + " " + rest) == [w] + Split(rest)
  {
    var s := w + " " + rest;
    assert s[|w|] == ' ';
    assert forall k :: 0 <= k < |w| ==> s[k] == w[k];
    var i := FirstSpace(s);
    assert i == |w|;
    assert s[..i] == w;
    assert s[i + 1..] == rest;
  }

  /** The concatenation of a sequence of sequences. */
  function Flatten<T>(ss: seq<seq<T>>): seq<T> {
    if ss == [] then [] else ss[0] + Flatten(ss[1..])
  }

  /** A character of the regular-expression class `[-\d\.]` (ASCII digits). */
  predicate IsNumChar(c: char) {
    c == '-' || c == '.' || '0' <= c <= '9'
  }

  /** A non-empty string made only of `-`, `.` and digits: exactly the
      strings the pattern `[-\d\.]+` matches in full. */
  predicate IsNumeric(w: string) {
    |w| > 0 && forall i :: 0 <= i < |w| ==> IsNumChar(w[i])
  }

  /** The length of the longest prefix of `s` made of numeric characters. */
  function RunLength(s: string): (n: nat)
    ensures n <= |s|
    ensures forall i :: 0 <= i < n ==> IsNumChar(s[i])
    ensures n < |s| ==> !IsNumChar(s[n])
  {
    if s != [] && IsNumChar(s[0]) then 1 + RunLength(s[1..]) else 0
  }

  /** `re.findall('([-\d\.]+)', s)`: the maximal numeric runs of `s`, left to
      right. */
  function Runs(s: string): (r: seq<string>)
    ensures forall k :: 0 <= k < |r| ==> IsNumeric(r[k])
    decreases |s|
  {
    if s == [] then []
    else if !IsNumChar(s[0]) then Runs(s[1..])
    else
      var n := RunLength(s);
      [s[..n]] + Runs(s[n..])
  }

  /** A numeric prefix ending at a non-numeric character (or the end) is
      exactly the first run's extent. */
  lemma RunLengthDelimited(s: string, j: nat)
    requires 0 < j <= |s|
    requires forall k :: 0 <= k < j ==> IsNumChar(s[k])
    requires j == |s| || !IsNumChar(s[j])
    ensures RunLength(s) == j
  {
  }

  lemma RunsSkip(s: string)
    requires s != [] && !IsNumChar(s[0])
    ensures Runs(s) == Runs(s[1..])
  {
  }

  lemma RunsHead(s: string)
    requires s != [] && IsNumChar(s[0])
    ensures Runs(s) == [s[..RunLength(s)]] + Runs(s[RunLength(s)..])
  {
  }

  lemma SuffixShift(s: string, d: nat, i: nat)
    requires d <= i <= |s|
    ensures s[d..][i - d..] == s[i..]
  {
  }

  lemma SliceShift(s: string, d: nat, i: nat, j: nat)
    requires d <= i <= j <= |s|
    ensures s[d..][i - d..j - d] == s[i..j]
  {
  }

  /** A numeric prefix bounded by a non-numeric character (or the end) is the
      first run. */
  lemma PrefixIsRun(s: string, j: nat)
    requires 0 < j <= |s|
    requires IsNumeric(s[..j])
    requires j == |s| || !IsNumChar(s[j])
    ensures s[..j] in Runs(s)
  {
    assert forall k :: 0 <= k < j ==> s[k] == s[..j][k];
    RunLengthDelimited(s, j);
    RunsHead(s);
  }

  /** Every numeric infix bounded by non-numeric characters (or the ends of
      the string) is one of the runs that `Runs` finds. */
  lemma {:induction false} DelimitedIsRun(s: string, i: nat, j: nat)
    requires i < j <= |s|
    requires IsNumeric(s[i..j])
    requires i == 0 || !IsNumChar(s[i - 1])
    requires j == |s| || !IsNumChar(s[j])
    ensures s[i..j] in Runs(s)
    decreases |s|
  {
    if i == 0 {
      assert s[i..j] == s[..j];
      PrefixIsRun(s, j);
    } else if !IsNumChar(s[0]) {
      SliceShift(s, 1, i, j);
      DelimitedIsRun(s[1..], i - 1, j - 1);
      RunsSkip(s);
    } else {
      var n := RunLength(s);
      assert !IsNumChar(s[i - 1]);
      SliceShift(s, n, i, j);
      DelimitedIsRun(s[n..], i - n, j - n);
      RunsHead(s);
    }
  }

  /** The runs after a non-numeric character are runs of the whole string. */
  lemma {:induction false} RunsAfterSeparator(s: string, m: nat, w: string)
    requires m < |s| && !IsNumChar(s[m])
    requires w in Runs(s[m + 1..])
    ensures w in Runs(s)
    decreases |s|
  {
    if m == 0 {
      RunsSkip(s);
    } else if !IsNumChar(s[0]) {
      SuffixShift(s, 1, m + 1);
      assert s[1..][m - 1] == s[m];
      RunsAfterSeparator(s[1..], m - 1, w);
      RunsSkip(s);
    } else {
      var n := RunLength(s);
      assert 0 < n <= m;
      SuffixShift(s, n, m + 1);
      assert s[n..][m - n] == s[m];
      RunsAfterSeparator(s[n..], m - n, w);
      assert w in Runs(s[n..]);
      RunsHead(s);
    }
  }

  /** On the words that `split(" ")` yields, membership in the
      `re.findall('([-\d\.]+)')` result is the same as being numeric. */
  lemma {:induction false} RunsMatchNumericWords(s: string, w: string)
    requires w in Split(s)
    ensures w in Runs(s) <==> IsNumeric(w)
    decreases |s|
  {
    if w in Runs(s) {
      var k :| 0 <= k < |Runs(s)| && Runs(s)[k] == w;
    } else if IsNumeric(w) {
      if ' ' in s {
        var i := FirstSpace(s);
        if w == s[..i] {
          DelimitedIsRun(s, 0, i);
        } else {
          RunsMatchNumericWords(s[i + 1..], w);
          RunsAfterSeparator(s, i, w);
        }
      } else {
        assert s[0..|s|] == s;
        DelimitedIsRun(s, 0, |s|);
      }
    }
  }
}
