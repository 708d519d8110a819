/** The few Python `str` operations the helper relies on, over Dafny strings:
    `startswith`, `split(sep)[0]`, `split()` and a file's `readlines()`. */
module PyText {

  /** `c.isspace()`: the characters `str.split()` with no argument splits on. */
  predicate IsSpace(c: char) {
    || c == ' '
    || ('\t' <= c <= '\r')
    || ('\U{1C}' <= c <= '\U{1F}')
    || c == '\U{85}' || c == '\U{A0}' || c == '\U{1680}'
    || ('\U{2000}' <= c <= '\U{200A}')
    || c == '\U{2028}' || c == '\U{2029}' || c == '\U{202F}' || c == '\U{205F}' || c == '\U{3000}'
  }

  /** `s.startswith(prefix)` */
  predicate StartsWith(s: string, prefix: string) {
    prefix <= s
  }

  /** `s.split(sep)[0]`: the text of `s` before the first `sep`, or all of `s`. */
  function Before(s: string, sep: char): (r: string)
    ensures r <= s && sep !in r
    ensures |r| == |s| || s[|r|] == sep
  {
    if s == [] || s[0] == sep then [] else [s[0]] + Before(s[1..], sep)
  }

  /** Text appended after a separator does not change what comes before the first one. */
  lemma {:induction false} BeforeAppend(a: string, b: string, sep: char)
    requires sep in a
    ensures Before(a + b, sep) == Before(a, sep)
  {
    if a[0] != sep {
      assert (a + b)[1..] == a[1..] + b;
      BeforeAppend(a[1..], b, sep);
    }
  }

  /** `s.split()`: the maximal runs of non-whitespace characters of `s`, in order. */
  function Split(s: string): (ts: seq<string>)
    ensures forall k :: 0 <= k < |ts| ==> Token(ts[k])
  {
    SplitFromTokens(s, []);
    SplitFrom(s, [])
  }

  /** `s.split()` continued after the characters `word` of a token not yet closed. */
  function SplitFrom(s: string, word: string): seq<string>
    decreases |s|
  {
    if s == [] then (if word == [] then [] else [word])
    else if IsSpace(s[0]) then (if word == [] then [] else [word]) + SplitFrom(s[1..], [])
    else SplitFrom(s[1..], word + [s[0]])
  }

  /** A `split()` token: non-empty and free of whitespace. */
  predicate Token(t: string) {
    t != [] && forall i :: 0 <= i < |t| ==> !IsSpace(t[i])
  }

  /** Every token is non-empty and free of whitespace. */
  lemma {:induction false} SplitFromTokens(s: string, word: string)
    requires forall i :: 0 <= i < |word| ==> !IsSpace(word[i])
    ensures forall k :: 0 <= k < |SplitFrom(s, word)| ==> Token(SplitFrom(s, word)[k])
    decreases |s|
  {
    if s != [] {
      if IsSpace(s[0]) {
        SplitFromTokens(s[1..], []);
        var head: seq<string> := if word == [] then [] else [word];
        var rest := SplitFrom(s[1..], []);
        assert SplitFrom(s, word) == head + rest;
        forall k | 0 <= k < |head + rest|
          ensures Token((head + rest)[k])
        {
          if k >= |head| {
            assert (head + rest)[k] == rest[k - |head|];
          }
        }
      } else {
        var w := word + [s[0]];
        assert forall i :: 0 <= i < |w| ==> !IsSpace(w[i]);
        SplitFromTokens(s[1..], w);
      }
    }
  }

  lemma {:induction false} SplitFromEmpty(s: string, word: string)
    ensures SplitFrom(s, word) == [] <==> word == [] && forall i :: 0 <= i < |s| ==> IsSpace(s[i])
    decreases |s|
  {
    if s != [] {
      SplitFromEmpty(s[1..], if IsSpace(s[0]) then [] else word + [s[0]]);
      assert forall i :: 1 <= i < |s| ==> s[i] == s[1..][i - 1];
    }
  }

  /** `s.split()` is empty exactly when `s` holds nothing but whitespace. */
  lemma SplitEmpty(s: string)
    ensures Split(s) == [] <==> forall i :: 0 <= i < |s| ==> IsSpace(s[i])
  {
    SplitFromEmpty(s, []);
  }

  /** A run of `n` non-whitespace characters closed by a whitespace character ends the
      pending token. */
  lemma {:induction false} SplitFromWord(s: string, word: string, n: nat)
    requires n < |s| && IsSpace(s[n]) && word + s[..n] != []
    requires forall i :: 0 <= i < n ==> !IsSpace(s[i])
    ensures SplitFrom(s, word) == [word + s[..n]] + SplitFrom(s[n + 1..], [])
    decreases n
  {
    if n == 0 {
      assert word + s[..n] == word;
    } else {
      SplitFromWord(s[1..], word + [s[0]], n - 1);
      assert (word + [s[0]]) + s[1..][..n - 1] == word + s[..n];
      assert s[1..][n..] == s[n + 1..];
    }
  }

  /** A record whose first field is non-empty, free of whitespace and ended by a tab:
      its first `split()` token is its first tab field. */
  lemma FirstTokenIsTabField(line: string)
    requires Before(line, '\t') != [] && |Before(line, '\t')| < |line|
    requires forall i :: 0 <= i < |Before(line, '\t')| ==> !IsSpace(Before(line, '\t')[i])
    ensures Split(line) != [] && Split(line)[0] == Before(line, '\t')
  {
    var f := Before(line, '\t');
    var n := |f|;
    assert line[..n] == f;
    assert IsSpace(line[n]);
    assert forall i :: 0 <= i < n ==> !IsSpace(line[i]) by {
      forall i | 0 <= i < n
        ensures !IsSpace(line[i])
      {
        assert line[i] == f[i];
      }
    }
    SplitFromWord(line, [], n);
  }

  /** The length of the first line of `s`, its '\n' included when it has one. */
  function LineLength(s: string): (n: nat)
    requires s != []
    ensures 0 < n <= |s|
    ensures '\n' !in s[..n - 1]
    ensures n == |s| || s[n - 1] == '\n'
  {
    if s[0] == '\n' || |s| == 1 then 1 else 1 + LineLength(s[1..])
  }

  /** `readlines()` of a file whose text is `s`: each line keeps its '\n'; the last may have none. */
  function Lines(s: string): (ls: seq<string>)
    ensures |ls| <= |s|
    ensures forall k :: 0 <= k < |ls| ==> ls[k] != []
    decreases |s|
  {
    if s == [] then [] else
      var n := LineLength(s);
      [s[..n]] + Lines(s[n..])
  }

  /** The text obtained by writing the lines `ls` one after the other. */
  function Concat(ls: seq<string>): string {
    if ls == [] then [] else ls[0] + Concat(ls[1..])
  }

  /** Ends with '\n', or is empty: text written after it starts a new line. */
  predicate Terminated(s: string) {
    s == [] || s[|s| - 1] == '\n'
  }

  /** A single line: non-empty and with no '\n' before its last character. */
  ghost predicate IsLine(l: string) {
    l != [] && '\n' !in l[..|l| - 1]
  }

  /** The shape of every `readlines()` result: lines, each but the last ended by '\n'. */
  ghost predicate Shaped(ls: seq<string>) {
    && (forall k :: 0 <= k < |ls| ==> IsLine(ls[k]))
    && (forall k :: 0 <= k < |ls| - 1 ==> Terminated(ls[k]))
  }

  lemma {:induction false} ConcatAppend(a: seq<string>, b: seq<string>)
    ensures Concat(a + b) == Concat(a) + Concat(b)
  {
    if a == [] {
      assert a + b == b;
    } else {
      assert (a + b)[0] == a[0];
      assert (a + b)[1..] == a[1..] + b;
      ConcatAppend(a[1..], b);
    }
  }

  /** Writing back the lines read from `s` gives `s` again. */
  lemma {:induction false} ConcatLines(s: string)
    ensures Concat(Lines(s)) == s
    decreases |s|
  {
    if s != [] {
      var n := LineLength(s);
      ConcatLines(s[n..]);
      var ls := Lines(s);
      assert ls == [s[..n]] + Lines(s[n..]);
      assert ls[1..] == Lines(s[n..]);
      assert s == s[..n] + s[n..];
    }
  }

  /** `readlines()` always returns a shaped list. */
  lemma {:induction false} LinesShaped(s: string)
    ensures Shaped(Lines(s))
    decreases |s|
  {
    if s != [] {
      var n := LineLength(s);
      LinesShaped(s[n..]);
      var ls := Lines(s);
      assert ls == [s[..n]] + Lines(s[n..]);
      assert IsLine(s[..n]) by {
        assert s[..n][..n - 1] == s[..n - 1];
      }
      if |ls| > 1 {
        assert n < |s|;
        assert Terminated(ls[0]);
      }
      assert forall k :: 1 <= k < |ls| ==> ls[k] == Lines(s[n..])[k - 1];
    }
  }

  /** The first line of `s` is the one prefix that has no '\n' but its last character
      and stops at a '\n' or at the end of `s`. */
  lemma {:induction false} LineLengthUnique(s: string, m: nat)
    requires s != [] && 0 < m <= |s|
    requires forall i :: 0 <= i < m - 1 ==> s[i] != '\n'
    requires m == |s| || s[m - 1] == '\n'
    ensures LineLength(s) == m
  {
    if s[0] != '\n' && |s| > 1 && m > 1 {
      LineLengthUnique(s[1..], m - 1);
    }
  }

  /** A line followed by text that starts a new one is read back as that line first. */
  lemma LineLengthOfLine(l: string, rest: string)
    requires IsLine(l)
    requires rest == [] || Terminated(l)
    ensures LineLength(l + rest) == |l|
  {
    var s := l + rest;
    forall i | 0 <= i < |l| - 1
      ensures s[i] != '\n'
    {
      assert s[i] == l[..|l| - 1][i];
    }
    LineLengthUnique(s, |l|);
  }

  /** Reading back the text of a shaped list of lines gives the same lines. */
  lemma {:induction false} LinesConcat(ls: seq<string>)
    requires Shaped(ls)
    ensures Lines(Concat(ls)) == ls
  {
    if ls != [] {
      var rest := Concat(ls[1..]);
      assert ls[1..] == [] ==> rest == [];
      LineLengthOfLine(ls[0], rest);
      assert (ls[0] + rest)[..|ls[0]|] == ls[0];
      assert (ls[0] + rest)[|ls[0]|..] == rest;
      LinesConcat(ls[1..]);
    }
  }

  /** The last line read from a non-empty text ends with the text's last character. */
  lemma {:induction false} LastLineEndsText(s: string)
    requires s != []
    ensures var ls := Lines(s);
      ls != [] && ls[|ls| - 1] != [] && ls[|ls| - 1][|ls[|ls| - 1]| - 1] == s[|s| - 1]
    decreases |s|
  {
    var n := LineLength(s);
    var ls := Lines(s);
    assert ls == [s[..n]] + Lines(s[n..]);
    if n < |s| {
      LastLineEndsText(s[n..]);
      var rest := Lines(s[n..]);
      assert ls[|ls| - 1] == rest[|rest| - 1];
      assert s[n..][|s[n..]| - 1] == s[|s| - 1];
    } else {
      assert s[n..] == [];
      assert ls == [s[..n]];
      assert s[..n] == s;
    }
  }

  /** Two shaped lists join into a shaped list when the first ends with a terminated line. */
  lemma ShapedJoin(la: seq<string>, lb: seq<string>)
    requires Shaped(la) && Shaped(lb)
    requires la == [] || Terminated(la[|la| - 1])
    ensures Shaped(la + lb)
  {
    var ls := la + lb;
    forall k | 0 <= k < |ls| - 1
      ensures Terminated(ls[k])
    {
      if k >= |la| {
        assert ls[k] == lb[k - |la|];
      }
    }
  }

  /** The last line of a text that does not end with '\n' has no '\n' at all. */
  lemma UnendedLastLine(s: string)
    requires !Terminated(s)
    ensures var ls := Lines(s); ls != [] && '\n' !in ls[|ls| - 1]
  {
    var ls := Lines(s);
    LinesShaped(s);
    LastLineEndsText(s);
    var last := ls[|ls| - 1];
    assert last == last[..|last| - 1] + [last[|last| - 1]];
  }

  /** Joining a line onto a last line without '\n' keeps the list shaped and appends the line
      to the written text. */
  lemma JoinLast(ls: seq<string>, line: string)
    requires Shaped(ls) && ls != [] && '\n' !in ls[|ls| - 1]
    requires IsLine(line)
    ensures var joined := ls[..|ls| - 1] + [ls[|ls| - 1] + line];
      Shaped(joined) && Concat(joined) == Concat(ls) + line
  {
    var n := |ls| - 1;
    var last := ls[n];
    var joined := ls[..n] + [last + line];
    assert IsLine(last + line) by {
      assert (last + line)[..|last + line| - 1] == last + line[..|line| - 1];
    }
    forall k | 0 <= k < |joined| - 1
      ensures Terminated(joined[k])
    {
      assert joined[k] == ls[k];
    }
    ConcatAppend(ls[..n], [last]);
    ConcatAppend(ls[..n], [last + line]);
    assert ls[..n] + [last] == ls;
    assert Concat([last]) == last;
    assert Concat([last + line]) == last + line;
  }

  /** A line appended to a text that ends mid-line completes that last line. */
  lemma LinesAppendMidLine(s: string, line: string)
    requires !Terminated(s)
    requires IsLine(line)
    ensures var ls := Lines(s);
      ls != [] && Lines(s + line) == ls[..|ls| - 1] + [ls[|ls| - 1] + line]
  {
    var ls := Lines(s);
    UnendedLastLine(s);
    LinesShaped(s);
    ConcatLines(s);
    JoinLast(ls, line);
    LinesConcat(ls[..|ls| - 1] + [ls[|ls| - 1] + line]);
  }

  /** Appending text to a terminated file appends its lines to those already read. */
  lemma LinesAppend(a: string, b: string)
    requires Terminated(a)
    ensures Lines(a + b) == Lines(a) + Lines(b)
  {
    var la, lb := Lines(a), Lines(b);
    LinesShaped(a);
    LinesShaped(b);
    ConcatLines(a);
    ConcatLines(b);
    ConcatAppend(la, lb);
    if a != [] {
      LastLineEndsText(a);
    }
    ShapedJoin(la, lb);
    LinesConcat(la + lb);
  }
}
