/** File names as pathlib sees them: Path.suffix, Path.stem, and the
    listing filter of list_md_files_in_zettelkasten in src/main.py. */
module Paths {
  import opened Text

  /** name.rfind('.'): the index of the last '.', or -1. */
  function LastDot(name: string): (i: int)
    ensures -1 <= i < |name|
  {
    if name == [] then -1
    else if name[|name| - 1] == '.' then |name| - 1
    else LastDot(name[..|name| - 1])
  }

  /** rfind finds a dot, and no dot comes after it. */
  lemma {:induction false} LastDotSpec(name: string)
    ensures LastDot(name) >= 0 ==> name[LastDot(name)] == '.'
    ensures forall j :: LastDot(name) < j < |name| ==> name[j] != '.'
  {
    if name != [] && name[|name| - 1] != '.' {
      LastDotSpec(name[..|name| - 1]);
    }
  }

  /** pathlib splits a name at its last dot when the dot is neither the
      first nor the last character. */
  predicate HasSuffix(name: string) {
    0 < LastDot(name) < |name| - 1
  }

  /** Path.suffix */
  function Suffix(name: string): (r: string)
  {
    if HasSuffix(name) then name[LastDot(name)..] else ""
  }

  /** Path.stem */
  function Stem(name: string): (r: string)
  {
    if HasSuffix(name) then name[..LastDot(name)] else name
  }

  /** The name is its stem followed by its suffix; a non-empty suffix is a
      dot and at least one more character, none of them a dot, and then
      the stem is not empty. */
  lemma StemAndSuffix(name: string)
    ensures Stem(name) + Suffix(name) == name
    ensures Suffix(name) != [] ==>
      && |Suffix(name)| >= 2 && Suffix(name)[0] == '.'
      && (forall j :: 0 < j < |Suffix(name)| ==> Suffix(name)[j] != '.')
      && Stem(name) != []
  {
    if HasSuffix(name) {
      LastDotSpec(name);
      var i := LastDot(name);
      assert name == name[..i] + name[i..];
      forall j | 0 < j < |Suffix(name)| ensures Suffix(name)[j] != '.' {
        assert Suffix(name)[j] == name[i + j];
      }
    }
  }

  /** item.suffix.lower() == ".md" */
  predicate IsMarkdown(name: string) {
    Lower(Suffix(name)) == ".md"
  }

  /** f.name.lower().endswith("index.md"): the test that makes a note an
      index note. */
  predicate IsIndexName(name: string) {
    EndsWith(Lower(name), "index.md")
  }

  /** The markdown files among the names of a folder's files, in listing
      order. */
  function MarkdownNames(names: seq<string>): (r: seq<string>)
  {
    if names == [] then []
    else (if IsMarkdown(names[0]) then [names[0]] else []) + MarkdownNames(names[1..])
  }

  /** The listing keeps exactly the markdown names, once per occurrence
      and in order. */
  lemma {:induction false} MarkdownNamesExact(names: seq<string>)
    ensures forall x :: x in MarkdownNames(names) <==> x in names && IsMarkdown(x)
    ensures |MarkdownNames(names)| <= |names|
  {
    if names != [] {
      MarkdownNamesExact(names[1..]);
      assert names == [names[0]] + names[1..];
    }
  }

  lemma {:induction false} MarkdownNamesAppend(a: seq<string>, b: seq<string>)
    ensures MarkdownNames(a + b) == MarkdownNames(a) + MarkdownNames(b)
  {
    if a == [] {
      assert a + b == b;
    } else {
      assert (a + b)[0] == a[0] && (a + b)[1..] == a[1..] + b;
      MarkdownNamesAppend(a[1..], b);
      var head := if IsMarkdown(a[0]) then [a[0]] else [];
      calc {
        MarkdownNames(a + b);
        head + MarkdownNames(a[1..] + b);
        head + (MarkdownNames(a[1..]) + MarkdownNames(b));
        (head + MarkdownNames(a[1..])) + MarkdownNames(b);
      }
    }
  }

  /** The loop of list_md_files_in_zettelkasten over the folder's files. */
  method ListMarkdownFiles(names: seq<string>) returns (md: seq<string>)
    ensures md == MarkdownNames(names)
  {
    md := [];
    for i := 0 to |names|
      invariant md == MarkdownNames(names[..i])
    {
      MarkdownNamesAppend(names[..i], [names[i]]);
      assert names[..i + 1] == names[..i] + [names[i]];
      if IsMarkdown(names[i]) {
        md := md + [names[i]];
      }
    }
    assert names[..|names|] == names;
  }
}
