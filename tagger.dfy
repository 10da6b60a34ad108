/** The content transform of _ensure_index_file_tags in src/main.py: put a
    tag line into an index note, after its front matter when it has one. */
module Tagger {
  import opened Text

  /** A front-matter fence: a line whose strip() is "---". */
  predicate IsFence(line: string) {
    Strip(line) == "---"
  }

  /** The first index from `from` on whose line is a fence, or -1. */
  function FenceFrom(lines: seq<string>, from: nat): (e: int)
    requires from <= |lines|
    ensures e == -1 || from <= e < |lines|
    ensures e != -1 ==> IsFence(lines[e])
    ensures forall j :: from <= j < |lines| && (e == -1 || j < e) ==> !IsFence(lines[j])
    decreases |lines| - from
  {
    if from == |lines| then -1
    else if IsFence(lines[from]) then from
    else FenceFrom(lines, from + 1)
  }

  /** frontmatter_end_line_index: when the first line is a fence, the index
      of the next fence line; -1 when there is none or the first line is no
      fence. */
  function FrontMatterEnd(lines: seq<string>): (e: int)
    ensures e == -1 || 1 <= e < |lines|
  {
    if lines != [] && IsFence(lines[0]) then FenceFrom(lines, 1) else -1
  }

  /** The front-matter search loop, which stops at the first closing fence. */
  method FindFrontMatterEnd(lines: seq<string>) returns (e: int)
    ensures e == FrontMatterEnd(lines)
  {
    e := -1;
    if |lines| > 0 && Strip(lines[0]) == "---" {
      var i := 1;
      while i < |lines|
        invariant 1 <= i <= |lines|
        invariant FenceFrom(lines, 1) == FenceFrom(lines, i)
      {
        if Strip(lines[i]) == "---" {
          e := i;
          break;
        }
        i := i + 1;
      }
    }
  }

  /** The lines kept in front of the tag line: the front matter through its
      closing fence, or nothing. */
  function FrontMatter(lines: seq<string>): (fm: seq<string>)
  {
    var e := FrontMatterEnd(lines);
    if e == -1 then [] else lines[..e + 1]
  }

  /** A blank line right after the front matter is dropped: the tag line
      takes its place. */
  function Gap(lines: seq<string>): (gap: seq<string>)
  {
    var e := FrontMatterEnd(lines);
    if e != -1 && e + 1 < |lines| && Strip(lines[e + 1]) == "" then [lines[e + 1]] else []
  }

  /** The lines kept after the tag line. */
  function Body(lines: seq<string>): (body: seq<string>)
  {
    var e := FrontMatterEnd(lines);
    if e == -1 then lines
    else if e + 1 < |lines| && Strip(lines[e + 1]) == "" then lines[e + 2..]
    else lines[e + 1..]
  }

  /** The lines are the front matter, the dropped gap and the body, in that
      order; a front matter opens and closes with a fence and has no fence
      in between; the gap is at most one blank line, and only after a front
      matter. */
  lemma LinesSplit(lines: seq<string>)
    ensures lines == FrontMatter(lines) + Gap(lines) + Body(lines)
    ensures FrontMatter(lines) != [] ==>
      var n := |FrontMatter(lines)|;
      && n >= 2 && IsFence(lines[0]) && IsFence(lines[n - 1])
      && forall j :: 0 < j < n - 1 ==> !IsFence(lines[j])
    ensures Gap(lines) == [] || (FrontMatter(lines) != [] && |Gap(lines)| == 1 && Strip(Gap(lines)[0]) == "")
  {
    var e := FrontMatterEnd(lines);
    if e != -1 {
      assert lines == lines[..e + 1] + lines[e + 1..];
      if e + 1 < |lines| && Strip(lines[e + 1]) == "" {
        assert lines[e + 1..] == [lines[e + 1]] + lines[e + 2..];
      }
    }
  }

  /** processed_lines: front matter, the tag line, body. */
  function Processed(lines: seq<string>, tag: string): (p: seq<string>)
  {
    FrontMatter(lines) + [tag + "\n"] + Body(lines)
  }

  /** The new content of an index note that lacks the tag: the processed
      lines joined, trailing whitespace stripped, one "\n" added. A note
      that already contains the tag is left as it is. */
  function Tagged(content: string, tag: string): (r: string)
  {
    if Contains(content, tag) then content
    else RStrip(Concat(Processed(SplitLines(content), tag))) + "\n"
  }

  /** The processing of one index note: the new content and whether it is
      written back (new_content_str != original_content). */
  method TagContent(content: string, tag: string) returns (result: string, write: bool)
    ensures result == Tagged(content, tag)
    ensures write <==> result != content
    ensures Contains(content, tag) ==> result == content && !write
  {
    if Contains(content, tag) {
      return content, false;
    }
    var lines := SplitLines(content);
    var e := FindFrontMatterEnd(lines);
    var processed: seq<string> := [];
    var tagLine := tag + "\n";
    if e != -1 {
      processed := processed + lines[..e + 1];
      if e + 1 < |lines| && Strip(lines[e + 1]) == "" {
        processed := processed + [tagLine];
        processed := processed + lines[e + 2..];
        assert Body(lines) == lines[e + 2..];
      } else {
        processed := processed + [tagLine];
        if e + 1 < |lines| {
          processed := processed + lines[e + 1..];
        } else {
          assert lines[e + 1..] == [];
        }
        assert Body(lines) == lines[e + 1..];
      }
      assert FrontMatter(lines) == lines[..e + 1];
    } else {
      processed := processed + [tagLine];
      processed := processed + lines;
      assert FrontMatter(lines) == [] && Body(lines) == lines;
    }
    assert processed == Processed(lines, tag);
    result := RStrip(Concat(processed)) + "\n";
    write := result != content;
  }

  /** A tag whose last character is not whitespace survives rstrip(). */
  predicate ValidTag(tag: string) {
    tag != [] && !IsSpace(tag[|tag| - 1])
  }

  lemma RStripKeepsOccurrence(s: string, t: string, i: int)
    requires OccursAt(s, t, i)
    requires ValidTag(t)
    ensures OccursAt(RStrip(s), t, i)
  {
    RStripSpec(s);
    var r := RStrip(s);
    assert s[i + |t| - 1] == t[|t| - 1];
    assert i + |t| <= |r|;
    assert r[i..i + |t|] == s[i..i + |t|];
  }

  /** The joined processed lines, around the tag line. */
  lemma ConcatProcessed(lines: seq<string>, tag: string)
    ensures Concat(Processed(lines, tag)) == Concat(FrontMatter(lines)) + tag + "\n" + Concat(Body(lines))
  {
    ConcatAppend(FrontMatter(lines) + [tag + "\n"], Body(lines));
    ConcatAppend(FrontMatter(lines), [tag + "\n"]);
    assert Concat([tag + "\n"]) == tag + "\n" + Concat([]);
  }

  lemma OccursInPrefix(s: string, rest: string, t: string, i: int)
    requires OccursAt(s, t, i)
    ensures OccursAt(s + rest, t, i)
  {
    assert (s + rest)[i..i + |t|] == s[i..i + |t|];
  }

  /** Joined and right-stripped, the processed lines still hold the tag
      right after the front matter. */
  lemma StrippedHoldsTag(lines: seq<string>, tag: string)
    requires ValidTag(tag)
    ensures OccursAt(RStrip(Concat(Processed(lines, tag))), tag, |Concat(FrontMatter(lines))|)
  {
    var fm := Concat(FrontMatter(lines));
    var joined := Concat(Processed(lines, tag));
    ConcatProcessed(lines, tag);
    assert joined == fm + tag + ("\n" + Concat(Body(lines)));
    assert OccursAt(joined, tag, |fm|);
    RStripKeepsOccurrence(joined, tag, |fm|);
  }

  /** After tagging, the note contains the tag. */
  lemma TaggedContainsTag(content: string, tag: string)
    requires ValidTag(tag)
    ensures Contains(Tagged(content, tag), tag)
  {
    if !Contains(content, tag) {
      var lines := SplitLines(content);
      var stripped := RStrip(Concat(Processed(lines, tag)));
      var p := |Concat(FrontMatter(lines))|;
      StrippedHoldsTag(lines, tag);
      OccursInPrefix(stripped, "\n", tag, p);
      assert OccursAt(Tagged(content, tag), tag, p);
    }
  }

  /** Tagging twice is tagging once. */
  lemma TaggedIdempotent(content: string, tag: string)
    requires ValidTag(tag)
    ensures Tagged(Tagged(content, tag), tag) == Tagged(content, tag)
  {
    TaggedContainsTag(content, tag);
  }

  /** A note that lacks the tag is always written: the new content holds
      the tag and the old one does not, so the guard against a no-op write
      never skips. */
  lemma TaggedAlwaysWrites(content: string, tag: string)
    requires ValidTag(tag)
    ensures Tagged(content, tag) != content <==> !Contains(content, tag)
  {
    TaggedContainsTag(content, tag);
  }

  /** A newly tagged note ends with exactly one "\n", right after a
      character that is not whitespace. */
  lemma TaggedEnding(content: string, tag: string)
    requires ValidTag(tag)
    requires !Contains(content, tag)
    ensures var r := Tagged(content, tag); |r| >= 2 && r[|r| - 1] == '\n' && !IsSpace(r[|r| - 2])
  {
    var lines := SplitLines(content);
    var joined := Concat(Processed(lines, tag));
    StrippedHoldsTag(lines, tag);
    RStripSpec(joined);
    assert Tagged(content, tag) == RStrip(joined) + "\n";
  }

  lemma SpliceLines(lines: seq<string>, tag: string)
    ensures var fm := Concat(FrontMatter(lines));
      var gap := Concat(Gap(lines));
      var body := Concat(Body(lines));
      && Concat(lines) == fm + gap + body
      && Strip(gap) == ""
      && Concat(Processed(lines, tag)) == fm + tag + "\n" + body
  {
    LinesSplit(lines);
    ConcatAppend(FrontMatter(lines) + Gap(lines), Body(lines));
    ConcatAppend(FrontMatter(lines), Gap(lines));
    ConcatProcessed(lines, tag);
    if Gap(lines) != [] {
      var blank := Gap(lines)[0];
      assert Gap(lines) == [blank];
      assert Concat(Gap(lines)) == blank + Concat([]);
      assert blank + [] == blank;
    }
  }

  /** Where the tag goes: the content is its front matter, a dropped blank
      gap and the body; the new content is the front matter kept verbatim,
      the tag line, then the body, right-stripped, plus "\n". */
  lemma TaggedSplice(content: string, tag: string)
    requires !Contains(content, tag)
    ensures var lines := SplitLines(content);
      var fm := Concat(FrontMatter(lines));
      var gap := Concat(Gap(lines));
      var body := Concat(Body(lines));
      && content == fm + gap + body
      && Strip(gap) == ""
      && Tagged(content, tag) == RStrip(fm + tag + "\n" + body) + "\n"
  {
    var lines := SplitLines(content);
    ConcatSplitLines(content);
    SpliceLines(lines, tag);
  }

  /** Without front matter the tag line simply comes first. */
  lemma TaggedWithoutFrontMatter(content: string, tag: string)
    requires !Contains(content, tag)
    requires FrontMatterEnd(SplitLines(content)) == -1
    ensures Tagged(content, tag) == RStrip(tag + "\n" + content) + "\n"
  {
    var lines := SplitLines(content);
    ConcatSplitLines(content);
    ConcatProcessed(lines, tag);
    assert FrontMatter(lines) == [] && Body(lines) == lines;
    assert Concat(FrontMatter(lines)) + tag + "\n" + Concat(Body(lines)) == tag + "\n" + content;
  }

  /** When the closing fence is the last line, the processed lines are the
      whole content followed by the tag line. */
  lemma ProcessedAfterFence(lines: seq<string>, tag: string)
    requires FrontMatterEnd(lines) == |lines| - 1
    ensures Concat(Processed(lines, tag)) == Concat(lines) + tag + "\n"
  {
    ConcatProcessed(lines, tag);
    assert FrontMatter(lines) == lines && Body(lines) == [];
  }

  /** Right-stripping text that ends in a tag and "\n" keeps the text up to
      the tag. */
  lemma StripKeepsGlued(s: string, tag: string)
    requires ValidTag(tag)
    ensures StartsWith(RStrip(s + tag + "\n") + "\n", s + tag)
  {
    var joined := s + tag + "\n";
    assert OccursAt(joined, s + tag, 0);
    RStripKeepsOccurrence(joined, s + tag, 0);
    OccursInPrefix(RStrip(joined), "\n", s + tag, 0);
  }

  /** The front matter quirk: when the closing fence is the last line and
      has no line break, the tag line is glued onto it ("---#index"). */
  lemma FenceGlue(content: string, tag: string)
    requires ValidTag(tag)
    requires !Contains(content, tag)
    requires FrontMatterEnd(SplitLines(content)) == |SplitLines(content)| - 1
    ensures StartsWith(Tagged(content, tag), content + tag)
  {
    var lines := SplitLines(content);
    ConcatSplitLines(content);
    ProcessedAfterFence(lines, tag);
    assert Tagged(content, tag) == RStrip(content + tag + "\n") + "\n";
    StripKeepsGlued(content, tag);
  }
}
