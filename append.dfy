/** The content side of _append_lines_to_file in src/main.py: how many
    newlines go before the new lines, and what the file holds afterwards. */
module Append {
  import opened Text

  /** "\n" * n */
  function Newlines(n: nat): (r: string)
  {
    seq(n, _ => '\n')
  }

  /** num_newlines_to_prefix for a file whose current content is `before` (a
      missing file counts as empty): none after a blank line, one after a
      line break, two otherwise. */
  function PrefixCount(before: string): (k: nat)
  {
    if EndsWith(before, "\n\n") then 0 else if EndsWith(before, "\n") then 1 else 2
  }

  lemma EndsWithBreaks(s: string)
    ensures EndsWith(s, "\n") <==> |s| >= 1 && s[|s| - 1] == '\n'
    ensures EndsWith(s, "\n\n") <==> |s| >= 2 && s[|s| - 2] == '\n' && s[|s| - 1] == '\n'
  {
    if |s| >= 1 && s[|s| - 1] == '\n' {
      assert s[|s| - 1..] == "\n";
    }
    if |s| >= 2 && s[|s| - 2] == '\n' && s[|s| - 1] == '\n' {
      assert s[|s| - 2..] == "\n\n";
    }
  }

  lemma PaddedAt(before: string, n: nat, j: int)
    requires 0 <= j < |before| + n
    ensures |before + Newlines(n)| == |before| + n
    ensures (before + Newlines(n))[j] == if j < |before| then before[j] else '\n'
  {
  }

  /** The prefix is the fewest newlines after which the old content ends
      with a blank line ("\n\n"). */
  lemma PrefixCountLeast(before: string)
    ensures PrefixCount(before) <= 2
    ensures EndsWith(before + Newlines(PrefixCount(before)), "\n\n")
    ensures forall n :: 0 <= n < PrefixCount(before) ==> !EndsWith(before + Newlines(n), "\n\n")
  {
    var m := |before|;
    EndsWithBreaks(before);
    assert before + Newlines(0) == before;
    var s1 := before + Newlines(1);
    var s2 := before + Newlines(2);
    EndsWithBreaks(s1);
    EndsWithBreaks(s2);
    PaddedAt(before, 1, m);
    PaddedAt(before, 2, m);
    PaddedAt(before, 2, m + 1);
    if m > 0 {
      PaddedAt(before, 1, m - 1);
    }
  }

  /** The text the write loop adds: every line followed by "\n". */
  function Terminated(lines: seq<string>): (r: string)
  {
    if lines == [] then [] else lines[0] + "\n" + Terminated(lines[1..])
  }

  lemma {:induction false} TerminatedAppend(lines: seq<string>, line: string)
    ensures Terminated(lines + [line]) == Terminated(lines) + line + "\n"
  {
    if lines == [] {
      assert [] + [line] == [line];
      assert Terminated([line]) == line + "\n" + Terminated([]);
    } else {
      assert (lines + [line])[0] == lines[0] && (lines + [line])[1..] == lines[1..] + [line];
      TerminatedAppend(lines[1..], line);
    }
  }

  /** The file content after _append_lines_to_file(lines): unchanged for no
      lines, otherwise the old content, the newline prefix and the
      terminated lines. */
  function Appended(before: string, lines: seq<string>): (r: string)
  {
    if lines == [] then before else before + Newlines(PrefixCount(before)) + Terminated(lines)
  }

  /** Appending keeps the old content as a prefix; when anything is
      appended, a blank line separates old and new text, and the file ends
      with a line break. */
  lemma AppendedShape(before: string, lines: seq<string>)
    ensures StartsWith(Appended(before, lines), before)
    ensures lines != [] ==>
      var r := Appended(before, lines);
      var k := PrefixCount(before);
      && EndsWith(r[..|before| + k], "\n\n")
      && r[|before| + k..] == Terminated(lines)
      && r[|r| - 1] == '\n'
  {
    var r := Appended(before, lines);
    if lines != [] {
      var k := PrefixCount(before);
      var padded := before + Newlines(k);
      var added := Terminated(lines);
      assert r == padded + added;
      PrefixCountLeast(before);
      assert r[..|padded|] == padded;
      assert r[|padded|..] == added;
      assert padded[..|before|] == before;
      TerminatedEnd(lines);
      assert r[|r| - 1] == added[|added| - 1];
    }
    assert r[..|before|] == before;
  }

  lemma {:induction false} TerminatedEnd(lines: seq<string>)
    requires lines != []
    ensures var t := Terminated(lines); t != [] && t[|t| - 1] == '\n'
  {
    if lines[1..] != [] {
      TerminatedEnd(lines[1..]);
    }
  }

  lemma {:induction false} BreakIndexOf(line: string, rest: string)
    requires forall i :: 0 <= i < |line| ==> !IsLineBreak(line[i])
    requires rest != [] && IsLineBreak(rest[0])
    ensures BreakIndex(line + rest) == |line|
  {
    if line != [] {
      assert (line + rest)[1..] == line[1..] + rest;
      BreakIndexOf(line[1..], rest);
    } else {
      assert line + rest == rest;
    }
  }

  /** Lines without line-break characters come back one by one (with their
      "\n") from splitlines(keepends=True) of the appended text: each added
      item sits on a line of its own. */
  lemma {:induction false} TerminatedSplits(lines: seq<string>)
    requires forall i, j :: 0 <= i < |lines| && 0 <= j < |lines[i]| ==> !IsLineBreak(lines[i][j])
    ensures SplitLines(Terminated(lines)) == seq(|lines|, i requires 0 <= i < |lines| => lines[i] + "\n")
  {
    if lines != [] {
      var s := Terminated(lines);
      var line := lines[0];
      var rest := Terminated(lines[1..]);
      assert s == line + ("\n" + rest);
      BreakIndexOf(line, "\n" + rest);
      assert LineEnd(s) == |line| + 1;
      assert s[..|line| + 1] == line + "\n";
      assert s[|line| + 1..] == rest;
      TerminatedSplits(lines[1..]);
    }
  }
}
