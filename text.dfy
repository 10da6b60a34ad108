/** Python's string primitives that the indexer relies on: whitespace, strip(),
    lower(), endswith(), `in`, splitlines(keepends=True) and "".join(). */
module Text {

  /** str.isspace() for one character: the characters strip() removes and
      that the regular-expression class `\s` matches. */
  predicate IsSpace(c: char) {
    || c == ' '
    || ('\t' <= c <= '\r')
    || ('\U{1c}' <= c <= '\U{1f}')
    || c == '\U{85}' || c == '\U{a0}' || c == '\U{1680}'
    || ('\U{2000}' <= c <= '\U{200a}')
    || c == '\U{2028}' || c == '\U{2029}' || c == '\U{202f}' || c == '\U{205f}'
    || c == '\U{3000}'
  }

  /** The characters at which str.splitlines() breaks a line. */
  predicate IsLineBreak(c: char) {
    || ('\n' <= c <= '\r')
    || ('\U{1c}' <= c <= '\U{1e}')
    || c == '\U{85}' || c == '\U{2028}' || c == '\U{2029}'
  }

  /** str.lstrip(): drops the leading whitespace. */
  function LStrip(s: string): (r: string)
  {
    if s != [] && IsSpace(s[0]) then LStrip(s[1..]) else s
  }

  /** lstrip() keeps a suffix of its input: what it drops is whitespace and
      what it keeps does not start with whitespace. */
  lemma {:induction false} LStripSpec(s: string)
    ensures |LStrip(s)| <= |s| && LStrip(s) == s[|s| - |LStrip(s)|..]
    ensures forall i :: 0 <= i < |s| - |LStrip(s)| ==> IsSpace(s[i])
    ensures LStrip(s) != [] ==> !IsSpace(LStrip(s)[0])
  {
    if s != [] && IsSpace(s[0]) {
      var t := s[1..];
      LStripSpec(t);
      var r := LStrip(t);
      assert LStrip(s) == r;
      assert t[|t| - |r|..] == s[|s| - |r|..];
      forall i | 0 <= i < |s| - |r|
        ensures IsSpace(s[i])
      {
        if i > 0 {
          assert s[i] == t[i - 1];
        }
      }
    }
  }

  /** str.rstrip(): drops the trailing whitespace. */
  function RStrip(s: string): (r: string)
  {
    if s != [] && IsSpace(s[|s| - 1]) then RStrip(s[..|s| - 1]) else s
  }

  /** rstrip() keeps a prefix of its input: what it drops is whitespace and
      what it keeps does not end with whitespace. */
  lemma {:induction false} RStripSpec(s: string)
    ensures |RStrip(s)| <= |s| && RStrip(s) == s[..|RStrip(s)|]
    ensures forall i :: |RStrip(s)| <= i < |s| ==> IsSpace(s[i])
    ensures RStrip(s) != [] ==> !IsSpace(RStrip(s)[|RStrip(s)| - 1])
  {
    if s != [] && IsSpace(s[|s| - 1]) {
      var t := s[..|s| - 1];
      RStripSpec(t);
      var r := RStrip(t);
      assert RStrip(s) == r;
      assert t[..|r|] == s[..|r|];
      forall i | |r| <= i < |s|
        ensures IsSpace(s[i])
      {
        if i < |s| - 1 {
          assert s[i] == t[i];
        }
      }
    }
  }

  /** str.strip() */
  function Strip(s: string): (r: string)
  {
    RStrip(LStrip(s))
  }

  /** strip() keeps the slice of its input that starts after the leading
      whitespace; its ends are not whitespace. */
  lemma StripSlice(s: string)
    ensures |LStrip(s)| <= |s|
    ensures var a := |s| - |LStrip(s)|;
      a + |Strip(s)| <= |s| && Strip(s) == s[a..a + |Strip(s)|]
    ensures Strip(s) != [] ==> !IsSpace(Strip(s)[0]) && !IsSpace(Strip(s)[|Strip(s)| - 1])
  {
    LStripSpec(s);
    RStripSpec(LStrip(s));
  }

  /** Text that neither starts nor ends with whitespace is its own strip(). */
  lemma StripUnchanged(s: string)
    requires s != [] ==> !IsSpace(s[0]) && !IsSpace(s[|s| - 1])
    ensures Strip(s) == s
  {
    assert LStrip(s) == s;
  }

  /** Sequence facts stated once, so that the proofs that cut text or
      lists of lines at a position need no extensionality argument of
      their own. A text is its three slices at two cut points. */
  lemma SplitThree(s: string, a: nat, b: nat)
    requires a <= b <= |s|
    ensures s == s[..a] + s[a..b] + s[b..]
  {
    assert s[..b] == s[..a] + s[a..b];
    assert s == s[..b] + s[b..];
  }

  /** The prefix one longer is the prefix plus the next element (the loop
      steps of the line scan). */
  lemma TakeSnoc<T>(s: seq<T>, i: int)
    requires 0 <= i < |s|
    ensures s[..i + 1] == s[..i] + [s[i]]
  {
  }

  /** A non-empty sequence is its front plus its last element (the
      induction steps over lists of lines). */
  lemma LastSplit<T>(s: seq<T>)
    requires s != []
    ensures s == s[..|s| - 1] + [s[|s| - 1]]
  {
  }

  /** Concatenation is associative (the induction steps over lists of lines). */
  lemma SeqAssoc<T>(x: seq<T>, y: seq<T>, z: seq<T>)
    ensures (x + y) + z == x + (y + z)
  {
  }

  /** str.lower() of one character. ASCII capitals become small letters;
      U+212A (Kelvin sign) and U+0130 (capital I with dot) are the only
      other characters whose lower case contains an ASCII character. Any
      other character is kept as it is: every use of lower() in the program
      only tests for ASCII characters, which such a character never yields. */
  function LowerChar(c: char): (r: string)
  {
    if 'A' <= c <= 'Z' then [(c as int + 32) as char]
    else if c == '\U{212a}' then "k"
    else if c == '\U{130}' then "i\U{307}"
    else [c]
  }

  /** str.lower() */
  function Lower(s: string): (r: string)
  {
    if s == [] then [] else LowerChar(s[0]) + Lower(s[1..])
  }

  lemma {:induction false} LowerAppend(a: string, b: string)
    ensures Lower(a + b) == Lower(a) + Lower(b)
  {
    if a != [] {
      assert (a + b)[0] == a[0] && (a + b)[1..] == a[1..] + b;
      LowerAppend(a[1..], b);
      calc {
        Lower(a + b);
        LowerChar(a[0]) + Lower(a[1..] + b);
        LowerChar(a[0]) + (Lower(a[1..]) + Lower(b));
        (LowerChar(a[0]) + Lower(a[1..])) + Lower(b);
      }
    } else {
      assert a + b == b;
    }
  }

  /** Two strings whose characters pairwise lower-case alike have the same
      lower case: lower() forgets only letter case. */
  lemma {:induction false} LowerAgrees(s: string, t: string)
    requires |s| == |t|
    requires forall i :: 0 <= i < |s| ==> LowerChar(s[i]) == LowerChar(t[i])
    ensures Lower(s) == Lower(t)
  {
    if s != [] {
      LowerAgrees(s[1..], t[1..]);
    }
  }

  predicate StartsWith(s: string, prefix: string) {
    |prefix| <= |s| && s[..|prefix|] == prefix
  }

  /** str.endswith() */
  predicate EndsWith(s: string, suffix: string) {
    |suffix| <= |s| && s[|s| - |suffix|..] == suffix
  }

  /** The `in` operator on strings: `sub` occurs somewhere in `s`. */
  predicate Contains(s: string, sub: string) {
    exists i :: 0 <= i <= |s| - |sub| && OccursAt(s, sub, i)
  }

  predicate OccursAt(s: string, sub: string, i: int) {
    0 <= i <= |s| - |sub| && s[i..i + |sub|] == sub
  }

  /** "".join(parts) */
  function Concat(parts: seq<string>): (r: string)
  {
    if parts == [] then [] else parts[0] + Concat(parts[1..])
  }

  lemma {:induction false} ConcatAppend(a: seq<string>, b: seq<string>)
    ensures Concat(a + b) == Concat(a) + Concat(b)
  {
    if a != [] {
      assert (a + b)[0] == a[0] && (a + b)[1..] == a[1..] + b;
      ConcatAppend(a[1..], b);
      calc {
        Concat(a + b);
        a[0] + Concat(a[1..] + b);
        a[0] + (Concat(a[1..]) + Concat(b));
        (a[0] + Concat(a[1..])) + Concat(b);
      }
    } else {
      assert a + b == b;
    }
  }

  /** Index of the first line-break character of `s`, or |s| when there is none. */
  function BreakIndex(s: string): (i: nat)
    ensures i <= |s|
    ensures forall j :: 0 <= j < i ==> !IsLineBreak(s[j])
    ensures i < |s| ==> IsLineBreak(s[i])
  {
    if s == [] || IsLineBreak(s[0]) then 0 else 1 + BreakIndex(s[1..])
  }

  /** Index just past the first line of a non-empty `s`, including its line
      ending; "\r\n" counts as one line ending, as in str.splitlines(). */
  function LineEnd(s: string): (n: nat)
    requires s != []
    ensures 0 < n <= |s|
  {
    var i := BreakIndex(s);
    if i == |s| then |s|
    else if s[i] == '\r' && i + 1 < |s| && s[i + 1] == '\n' then i + 2
    else i + 1
  }

  /** Where the first line ends: no line break before its own ending
      ("\r\n" counting as one); when text follows, the line ends in a
      break, and a "\r" ending is not followed by "\n". */
  lemma LineEndSpec(s: string)
    requires s != []
    ensures var n := LineEnd(s);
      forall j :: 0 <= j < n - 1 ==> !IsLineBreak(s[j]) || (j == n - 2 && s[j] == '\r' && s[j + 1] == '\n')
    ensures LineEnd(s) < |s| ==> IsLineBreak(s[LineEnd(s) - 1])
    ensures LineEnd(s) < |s| && s[LineEnd(s) - 1] == '\r' ==> s[LineEnd(s)] != '\n'
  {
  }

  /** str.splitlines(keepends=True) */
  function SplitLines(s: string): (lines: seq<string>)
    ensures forall i :: 0 <= i < |lines| ==> lines[i] != []
    decreases |s|
  {
    if s == [] then [] else [s[..LineEnd(s)]] + SplitLines(s[LineEnd(s)..])
  }

  /** A line as splitlines(keepends=True) cuts it: no line break before its
      own ending, where "\r\n" counts as one ending. */
  predicate LineOk(line: string) {
    forall j :: 0 <= j < |line| - 1 ==>
      !IsLineBreak(line[j]) || (j == |line| - 2 && line[j] == '\r' && line[j + 1] == '\n')
  }

  /** Two consecutive lines do not split a "\r\n" ending between them. */
  predicate Joint(a: string, b: string)
    requires a != [] && b != []
  {
    !(a[|a| - 1] == '\r' && b[0] == '\n')
  }

  /** The lines of splitlines(keepends=True) end exactly at the line
      breaks: no line holds a break before its own ending, every line but
      the last ends in a break, and no "\r\n" is cut in two. */
  lemma {:induction false} SplitLinesBreaks(s: string)
    ensures forall i :: 0 <= i < |SplitLines(s)| ==> LineOk(SplitLines(s)[i])
    ensures forall i :: 0 <= i < |SplitLines(s)| - 1 ==> IsLineBreak(SplitLines(s)[i][|SplitLines(s)[i]| - 1])
    ensures forall i :: 0 <= i < |SplitLines(s)| - 1 ==> Joint(SplitLines(s)[i], SplitLines(s)[i + 1])
    decreases |s|
  {
    if s != [] {
      var n := LineEnd(s);
      LineEndSpec(s);
      var line, rest := s[..n], s[n..];
      SplitLinesBreaks(rest);
      var lines, tail := SplitLines(s), SplitLines(rest);
      assert lines == [line] + tail;
      assert LineOk(line);
      if tail != [] {
        assert rest != [];
        assert tail[0] == rest[..LineEnd(rest)];
        assert tail[0][0] == s[n];
        assert IsLineBreak(line[|line| - 1]);
        assert Joint(line, tail[0]);
      }
      forall i | 0 <= i < |lines|
        ensures LineOk(lines[i])
      {
        if i > 0 { assert lines[i] == tail[i - 1]; }
      }
      forall i | 0 <= i < |lines| - 1
        ensures IsLineBreak(lines[i][|lines[i]| - 1])
      {
        if i > 0 { assert lines[i] == tail[i - 1]; }
      }
      forall i | 0 <= i < |lines| - 1
        ensures Joint(lines[i], lines[i + 1])
      {
        if i > 0 { assert lines[i] == tail[i - 1] && lines[i + 1] == tail[i]; }
      }
    }
  }

  /** Joining the lines that splitlines(keepends=True) produced gives the
      text back. */
  lemma {:induction false} ConcatSplitLines(s: string)
    ensures Concat(SplitLines(s)) == s
    decreases |s|
  {
    if s != [] {
      var n := LineEnd(s);
      ConcatSplitLines(s[n..]);
      assert s == s[..n] + s[n..];
    }
  }
}
