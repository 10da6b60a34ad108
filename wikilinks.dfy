/** The wikilink extractor: re.findall(r'\[\[([^\]]+)\]\]', ...) followed
    by normalisation of every captured target (extract_wikilinks_from_content
    and _extract_all_wikilinks_from_indices in src/main.py). */
module Wikilinks {
  import opened Text
  import opened Keys

  /** How many characters [^\]]+ consumes greedily at the front of t: the
      length of the longest prefix of t without ']'. */
  function OpenRun(t: string): (n: nat)
    ensures n <= |t|
    ensures forall j :: 0 <= j < n ==> t[j] != ']'
    ensures n < |t| ==> t[n] == ']'
  {
    if t == [] || t[0] == ']' then 0 else 1 + OpenRun(t[1..])
  }

  /** Index of the first ']' after an opening "[[" at the front of s (or |s|). */
  function Close(s: string): (j: nat)
    requires |s| >= 2
  {
    2 + OpenRun(s[2..])
  }

  /** The pattern matches at the front of s. Because [^\]] cannot match
      ']', backtracking never finds a shorter capture that works: the
      capture runs up to the first ']', which must be the first of "]]". */
  predicate Opens(s: string) {
    && |s| >= 2 && s[0] == '[' && s[1] == '['
    && 2 < Close(s) && Close(s) + 1 < |s| && s[Close(s) + 1] == ']'
  }

  /** re.findall of the wikilink pattern: the captures of the successive
      non-overlapping matches, scanning left to right. */
  function FindAll(s: string): (links: seq<string>)
    ensures forall i :: 0 <= i < |links| ==> links[i] != [] && ']' !in links[i]
    decreases |s|
  {
    if s == [] then []
    else if Opens(s) then
      var j := Close(s);
      assert forall c :: c in s[2..j] ==> c != ']';
      [s[2..j]] + FindAll(s[j + 2..])
    else FindAll(s[1..])
  }

  lemma ContainsSuffix(s: string, k: nat, sub: string)
    requires k <= |s|
    requires Contains(s[k..], sub)
    ensures Contains(s, sub)
  {
    var i :| 0 <= i <= |s[k..]| - |sub| && OccursAt(s[k..], sub, i);
    assert s[k + i..k + i + |sub|] == s[k..][i..i + |sub|];
    assert OccursAt(s, sub, k + i);
  }

  /** Every capture comes from a "[[" + capture + "]]" that occurs in the text. */
  lemma {:induction false} FindAllOccurs(s: string)
    ensures forall i :: 0 <= i < |FindAll(s)| ==> Contains(s, "[[" + FindAll(s)[i] + "]]")
    decreases |s|
  {
    if s != [] {
      if Opens(s) {
        var j := Close(s);
        FindAllOccurs(s[j + 2..]);
        var links := FindAll(s);
        assert s[..j + 2] == "[[" + s[2..j] + "]]";
        assert OccursAt(s, "[[" + s[2..j] + "]]", 0);
        forall i | 1 <= i < |links| ensures Contains(s, "[[" + links[i] + "]]") {
          assert links[i] == FindAll(s[j + 2..])[i - 1];
          ContainsSuffix(s, j + 2, "[[" + links[i] + "]]");
        }
      } else {
        FindAllOccurs(s[1..]);
        forall i | 0 <= i < |FindAll(s)| ensures Contains(s, "[[" + FindAll(s)[i] + "]]") {
          ContainsSuffix(s, 1, "[[" + FindAll(s)[i] + "]]");
        }
      }
    }
  }

  /** Text in which "[[" never occurs has no wikilinks. */
  lemma {:induction false} FindAllNoOpening(s: string)
    requires !Contains(s, "[[")
    ensures FindAll(s) == []
    decreases |s|
  {
    if s != [] {
      if Opens(s) {
        assert OccursAt(s, "[[", 0);
      } else {
        if Contains(s[1..], "[[") {
          ContainsSuffix(s, 1, "[[");
        }
        FindAllNoOpening(s[1..]);
      }
    }
  }

  lemma {:induction false} OpenRunOf(t: string, u: string)
    requires ']' !in t
    requires u != [] && u[0] == ']'
    ensures OpenRun(t + u) == |t|
  {
    if t != [] {
      assert (t + u)[1..] == t[1..] + u;
      OpenRunOf(t[1..], u);
    } else {
      assert t + u == u;
    }
  }

  /** A well-formed link at the front of the text is found, and the scan
      carries on right after it. */
  lemma FindAllLink(t: string, rest: string)
    requires t != [] && ']' !in t
    ensures FindAll("[[" + t + "]]" + rest) == [t] + FindAll(rest)
  {
    var s := "[[" + t + "]]" + rest;
    assert s[2..] == t + ("]]" + rest);
    OpenRunOf(t, "]]" + rest);
    assert Close(s) == 2 + |t|;
    assert s[2..2 + |t|] == t;
    assert s[|t| + 4..] == rest;
  }

  /** Text without '[' in front of the rest adds no wikilink. */
  lemma {:induction false} FindAllSkip(p: string, rest: string)
    requires '[' !in p
    ensures FindAll(p + rest) == FindAll(rest)
  {
    if p != [] {
      var s := p + rest;
      assert s[0] == p[0] && s[1..] == p[1..] + rest;
      FindAllSkip(p[1..], rest);
    } else {
      assert p + rest == rest;
    }
  }

  /** A stem with a ']' that is not followed by a second ']' (such as
      "a]b") and no '[' written as "[[" + stem + "]]" is not captured at
      all: the capture stops at the ']', which "]]" does not follow. */
  lemma BracketStemNotCaptured(p: string, q: string)
    requires ']' !in p && '[' !in p && '[' !in q
    requires q != [] && q[0] != ']'
    ensures FindAll("[[" + p + "]" + q + "]]") == []
  {
    var stem := p + "]" + q;
    var line := "[[" + stem + "]]";
    assert line == "[[" + p + "]" + q + "]]";
    assert FindAll(line) == FindAll(line[1..]) by {
      assert line[2..] == p + ("]" + q + "]]");
      OpenRunOf(p, "]" + q + "]]");
      assert Close(line) == 2 + |p|;
      assert line[|p| + 3] == q[0];
      assert !Opens(line);
    }
    assert FindAll(line[1..]) == FindAll(stem + "]]") by {
      var rest := line[1..];
      assert rest[1..] == stem + "]]";
      assert !Opens(rest);
    }
    assert FindAll(stem + "]]") == [] by {
      assert '[' !in stem + "]]";
      FindAllSkip(stem + "]]", []);
      assert (stem + "]]") + [] == stem + "]]";
      assert FindAll([]) == [];
    }
  }

  /** The key a captured link target stands for:
      _normalize_text_for_linking(link_target.strip()). */
  function TargetKey(target: string): (k: string)
  {
    Normalize(Strip(target))
  }

  /** The keys of a sequence of captured targets. */
  function KeySet(targets: seq<string>): (keys: set<string>)
  {
    if targets == [] then {} else {TargetKey(targets[0])} + KeySet(targets[1..])
  }

  lemma {:induction false} KeySetExact(targets: seq<string>, k: string)
    ensures k in KeySet(targets) <==> exists i :: 0 <= i < |targets| && k == TargetKey(targets[i])
  {
    if targets != [] {
      KeySetExact(targets[1..], k);
      if k in KeySet(targets[1..]) {
        var i :| 0 <= i < |targets[1..]| && k == TargetKey(targets[1..][i]);
        assert targets[i + 1] == targets[1..][i];
      }
      if exists i :: 0 <= i < |targets| && k == TargetKey(targets[i]) {
        var i :| 0 <= i < |targets| && k == TargetKey(targets[i]);
        if i > 0 {
          assert targets[1..][i - 1] == targets[i];
        }
      }
    }
  }

  lemma {:induction false} KeySetAppend(a: seq<string>, b: seq<string>)
    ensures KeySet(a + b) == KeySet(a) + KeySet(b)
  {
    if a == [] {
      assert a + b == b;
    } else {
      assert (a + b)[0] == a[0] && (a + b)[1..] == a[1..] + b;
      KeySetAppend(a[1..], b);
    }
  }

  /** extract_wikilinks_from_content, as the set it returns: the key of the
      capture of every match. */
  function LinkSet(content: string): (links: set<string>)
  {
    KeySet(FindAll(content))
  }

  /** Every extracted key is the normalised target of a well-formed
      [[target]] in the text, and is a fixed point of the normaliser. */
  lemma LinkSetSound(content: string, k: string)
    requires k in LinkSet(content)
    ensures exists t :: t != [] && ']' !in t && Contains(content, "[[" + t + "]]") && k == TargetKey(t)
    ensures IsKey(k) && Normalize(k) == k
  {
    KeySetExact(FindAll(content), k);
    var i :| 0 <= i < |FindAll(content)| && k == TargetKey(FindAll(content)[i]);
    var t := FindAll(content)[i];
    FindAllOccurs(content);
    assert Contains(content, "[[" + t + "]]");
    NormalizeIsKey(Strip(t));
    NormalizeFixedPoint(k);
  }

  /** No "[[" in the text, no links. */
  lemma LinkSetNoOpening(content: string)
    requires !Contains(content, "[[")
    ensures LinkSet(content) == {}
  {
    FindAllNoOpening(content);
  }

  /** A link followed by more text contributes its own key. */
  lemma LinkSetLink(t: string, rest: string)
    requires t != [] && ']' !in t
    ensures LinkSet("[[" + t + "]]" + rest) == {TargetKey(t)} + LinkSet(rest)
  {
    FindAllLink(t, rest);
    KeySetAppend([t], FindAll(rest));
  }

  /** The loop of extract_wikilinks_from_content: one key added to the set
      per captured target. */
  method AddTargetKeys(found: seq<string>) returns (links: set<string>)
    ensures links == KeySet(found)
  {
    links := {};
    for i := 0 to |found|
      invariant links == KeySet(found[..i])
    {
      assert found[..i + 1] == found[..i] + [found[i]];
      KeySetAppend(found[..i], [found[i]]);
      links := links + {TargetKey(found[i])};
    }
    assert found == found[..|found|];
  }

  /** extract_wikilinks_from_content */
  method ExtractWikilinks(content: string) returns (links: set<string>)
    ensures links == LinkSet(content)
  {
    var found := FindAll(content);
    links := AddTargetKeys(found);
  }

  /** _extract_all_wikilinks_from_indices over the folder's readable
      contents: the union of the links of the index files; a name that
      cannot be read is skipped. */
  function LinksOf(indexFiles: seq<string>, files: map<string, string>): (linked: set<string>)
  {
    if indexFiles == [] then {}
    else
      (if indexFiles[0] in files then LinkSet(files[indexFiles[0]]) else {})
      + LinksOf(indexFiles[1..], files)
  }

  /** A key is linked exactly when some readable index file links it. */
  lemma {:induction false} LinksOfExact(indexFiles: seq<string>, files: map<string, string>, k: string)
    ensures k in LinksOf(indexFiles, files) <==>
      exists i :: 0 <= i < |indexFiles| && indexFiles[i] in files && k in LinkSet(files[indexFiles[i]])
  {
    if indexFiles != [] {
      LinksOfExact(indexFiles[1..], files, k);
      if k in LinksOf(indexFiles[1..], files) {
        var i :| 0 <= i < |indexFiles[1..]| && indexFiles[1..][i] in files && k in LinkSet(files[indexFiles[1..][i]]);
        assert indexFiles[i + 1] == indexFiles[1..][i];
      }
      if exists i :: 0 <= i < |indexFiles| && indexFiles[i] in files && k in LinkSet(files[indexFiles[i]]) {
        var i :| 0 <= i < |indexFiles| && indexFiles[i] in files && k in LinkSet(files[indexFiles[i]]);
        if i > 0 {
          assert indexFiles[1..][i - 1] == indexFiles[i];
        }
      }
    }
  }

  lemma {:induction false} LinksOfAppend(a: seq<string>, b: seq<string>, files: map<string, string>)
    ensures LinksOf(a + b, files) == LinksOf(a, files) + LinksOf(b, files)
  {
    if a == [] {
      assert a + b == b;
    } else {
      assert (a + b)[0] == a[0] && (a + b)[1..] == a[1..] + b;
      LinksOfAppend(a[1..], b, files);
    }
  }

  /** _extract_all_wikilinks_from_indices: the loop that reads each index
      file and adds its links. */
  method LinksFromIndices(indexFiles: seq<string>, files: map<string, string>) returns (linked: set<string>)
    ensures linked == LinksOf(indexFiles, files)
  {
    linked := {};
    for i := 0 to |indexFiles|
      invariant linked == LinksOf(indexFiles[..i], files)
    {
      LinksOfAppend(indexFiles[..i], [indexFiles[i]], files);
      assert indexFiles[..i + 1] == indexFiles[..i] + [indexFiles[i]];
      if indexFiles[i] in files {
        var found := ExtractWikilinks(files[indexFiles[i]]);
        linked := linked + found;
      }
    }
    assert indexFiles[..|indexFiles|] == indexFiles;
  }
}
