/** Phase 3, second half: the lines to add for the unindexed notes
    (_parse_existing_unindexed_file and _prepare_final_unindexed_content in
    src/main.py). */
module Additions {
  import opened Text
  import opened Keys
  import opened Ordering

  /** re.fullmatch(r'\s*\[\[\s*([^]]+?)\s*\]\]\s*', line): apart from
      surrounding whitespace the line is "[[", a non-empty text without
      ']', and "]]". */
  predicate IsLinkLine(line: string) {
    var t := Strip(line);
    |t| >= 5 && t[..2] == "[[" && t[|t| - 2..] == "]]" && ']' !in t[2..|t| - 2]
  }

  /** The key of a link line: _normalize_text_for_linking(match.group(1).strip()).
      The lazy group with the \s* around it captures the text between the
      brackets less its leading blanks, so its strip() is the strip() of
      that whole text. */
  function LineKey(line: string): (k: string)
    requires IsLinkLine(line)
  {
    var t := Strip(line);
    Normalize(Strip(t[2..|t| - 2]))
  }

  /** The loop body of _parse_existing_unindexed_file for one line: a
      link line to a currently unindexed note is preserved and its key
      kept, a link line to any other note is dropped, every other line is
      preserved. */
  function LinePreserved(line: string, current: set<string>): (preserved: seq<string>)
  {
    if !IsLinkLine(line) || LineKey(line) in current then [line] else []
  }

  function LineKept(line: string, current: set<string>): (kept: set<string>)
  {
    if IsLinkLine(line) && LineKey(line) in current then {LineKey(line)} else {}
  }

  /** The lines the loop preserves, in order. */
  function PreservedOf(lines: seq<string>, current: set<string>): (preserved: seq<string>)
  {
    if lines == [] then []
    else PreservedOf(lines[..|lines| - 1], current) + LinePreserved(lines[|lines| - 1], current)
  }

  /** The keys the loop keeps. */
  function KeptOf(lines: seq<string>, current: set<string>): (kept: set<string>)
  {
    if lines == [] then {}
    else KeptOf(lines[..|lines| - 1], current) + LineKept(lines[|lines| - 1], current)
  }

  /** Kept keys are currently unindexed keys that a preserved link line
      names; a preserved line is an input line that is no link to another
      note. */
  lemma {:induction false} ScanSound(lines: seq<string>, current: set<string>)
    ensures KeptOf(lines, current) <= current
    ensures forall k :: k in KeptOf(lines, current) ==>
      exists line :: line in PreservedOf(lines, current) && IsLinkLine(line) && LineKey(line) == k
    ensures forall line :: line in PreservedOf(lines, current) ==>
      line in lines && (IsLinkLine(line) ==> LineKey(line) in current)
  {
    if lines != [] {
      var init := lines[..|lines| - 1];
      var line := lines[|lines| - 1];
      ScanSound(init, current);
      forall k | k in KeptOf(lines, current)
        ensures exists l :: l in PreservedOf(lines, current) && IsLinkLine(l) && LineKey(l) == k
      {
        if k in KeptOf(init, current) {
          var l :| l in PreservedOf(init, current) && IsLinkLine(l) && LineKey(l) == k;
          assert l in PreservedOf(lines, current);
        } else {
          assert line in PreservedOf(lines, current);
        }
      }
    }
  }

  /** The scan keeps what it must: every line that is not a link line, or
      that links to a currently unindexed key, is preserved, and the key of
      such a link line is kept. */
  lemma {:induction false} ScanComplete(lines: seq<string>, current: set<string>)
    ensures forall i :: (0 <= i < |lines| && (!IsLinkLine(lines[i]) || LineKey(lines[i]) in current)
                         ==> lines[i] in PreservedOf(lines, current))
    ensures forall i :: (0 <= i < |lines| && IsLinkLine(lines[i]) && LineKey(lines[i]) in current
                         ==> LineKey(lines[i]) in KeptOf(lines, current))
  {
    if lines != [] {
      var init, line := lines[..|lines| - 1], lines[|lines| - 1];
      ScanComplete(init, current);
      LastSplit(lines);
      ScanSnoc(init, line, current);
      forall i | 0 <= i < |lines| && (!IsLinkLine(lines[i]) || LineKey(lines[i]) in current)
        ensures lines[i] in PreservedOf(lines, current)
      {
        if i < |init| {
          assert lines[i] == init[i];
        }
      }
      forall i | 0 <= i < |lines| && IsLinkLine(lines[i]) && LineKey(lines[i]) in current
        ensures LineKey(lines[i]) in KeptOf(lines, current)
      {
        if i < |init| {
          assert lines[i] == init[i];
        }
      }
    }
  }

  /** Scanning one more line adds that line's contribution. */
  lemma ScanSnoc(lines: seq<string>, line: string, current: set<string>)
    ensures PreservedOf(lines + [line], current) == PreservedOf(lines, current) + LinePreserved(line, current)
    ensures KeptOf(lines + [line], current) == KeptOf(lines, current) + LineKept(line, current)
  {
    assert (lines + [line])[..|lines|] == lines;
  }

  /** The scan is an order-preserving filter: scanning two blocks of lines
      one after the other preserves the first block's lines, then the
      second's. */
  lemma {:induction false} PreservedAppend(a: seq<string>, b: seq<string>, current: set<string>)
    ensures PreservedOf(a + b, current) == PreservedOf(a, current) + PreservedOf(b, current)
  {
    if b == [] {
      assert a + b == a;
    } else {
      var init, line := b[..|b| - 1], b[|b| - 1];
      PreservedAppend(a, init, current);
      LastSplit(b);
      SeqAssoc(a, init, [line]);
      ScanSnoc(a + init, line, current);
      ScanSnoc(init, line, current);
      ghost var x, y, z := PreservedOf(a, current), PreservedOf(init, current), LinePreserved(line, current);
      assert PreservedOf(a + b, current) == (x + y) + z;
      assert PreservedOf(b, current) == y + z;
      SeqAssoc(x, y, z);
    }
  }

  /** Likewise the kept keys of two blocks are those of each block. */
  lemma {:induction false} KeptAppend(a: seq<string>, b: seq<string>, current: set<string>)
    ensures KeptOf(a + b, current) == KeptOf(a, current) + KeptOf(b, current)
  {
    if b == [] {
      assert a + b == a;
    } else {
      var init, line := b[..|b| - 1], b[|b| - 1];
      KeptAppend(a, init, current);
      LastSplit(b);
      SeqAssoc(a, init, [line]);
      ScanSnoc(a + init, line, current);
      ScanSnoc(init, line, current);
    }
  }

  /** The loop of _parse_existing_unindexed_file over a sequence of lines. */
  method ScanLines(lines: seq<string>, current: set<string>) returns (preserved: seq<string>, kept: set<string>)
    ensures preserved == PreservedOf(lines, current)
    ensures kept == KeptOf(lines, current)
  {
    preserved, kept := [], {};
    for i := 0 to |lines|
      invariant preserved == PreservedOf(lines[..i], current)
      invariant kept == KeptOf(lines[..i], current)
    {
      TakeSnoc(lines, i);
      ScanSnoc(lines[..i], lines[i], current);
      var line := lines[i];
      if IsLinkLine(line) {
        var key := LineKey(line);
        if key in current {
          preserved := preserved + [line];
          kept := kept + {key};
        }
      } else {
        preserved := preserved + [line];
      }
    }
    assert lines[..|lines|] == lines;
  }

  /** _parse_existing_unindexed_file as shipped: it iterates over the
      characters of the empty string instead of the lines of unindexed.md,
      so it never preserves a line and never keeps a key. */
  method ParseExistingUnindexed(current: set<string>) returns (preserved: seq<string>, kept: set<string>)
    ensures preserved == [] && kept == {}
  {
    var existing := "";
    var lines := seq(|existing|, i requires 0 <= i < |existing| => [existing[i]]);
    preserved, kept := ScanLines(lines, current);
  }

  /** The keys, in the given order, for which a link line is written: those
      with a non-empty stem in the catalog (all_notes_data.get(key) is
      truthy). */
  function AddedKeys(order: seq<string>, notes: map<string, string>): (keys: seq<string>)
    ensures forall i :: 0 <= i < |keys| ==> keys[i] in notes && notes[keys[i]] != ""
  {
    if order == [] then []
    else
      var k := order[|order| - 1];
      AddedKeys(order[..|order| - 1], notes) + (if k in notes && notes[k] != "" then [k] else [])
  }

  /** The lines the builder loop appends for the keys in `order`. */
  function AddedLines(order: seq<string>, notes: map<string, string>): (lines: seq<string>)
  {
    if order == [] then []
    else
      var k := order[|order| - 1];
      AddedLines(order[..|order| - 1], notes)
        + (if k in notes && notes[k] != "" then ["[[" + notes[k] + "]]"] else [])
  }

  /** The added lines are "[[" + stem + "]]" for the added keys, one each,
      in the same order. */
  lemma {:induction false} AddedLinesOfKeys(order: seq<string>, notes: map<string, string>)
    ensures |AddedLines(order, notes)| == |AddedKeys(order, notes)|
    ensures forall i :: 0 <= i < |AddedKeys(order, notes)| ==>
      AddedLines(order, notes)[i] == "[[" + notes[AddedKeys(order, notes)[i]] + "]]"
  {
    if order != [] {
      AddedLinesOfKeys(order[..|order| - 1], notes);
    }
  }

  /** The added keys are exactly the keys of `order` that have a non-empty
      stem. */
  lemma {:induction false} AddedKeysExact(order: seq<string>, notes: map<string, string>)
    ensures forall k :: k in AddedKeys(order, notes) <==> k in order && k in notes && notes[k] != ""
  {
    if order != [] {
      var init := order[..|order| - 1];
      AddedKeysExact(init, notes);
      assert order == init + [order[|order| - 1]];
    }
  }

  /** The added keys keep the order of `order`: an ascending order stays
      ascending. */
  lemma {:induction false} AddedKeysIncreasing(order: seq<string>, notes: map<string, string>)
    requires Increasing(order)
    ensures Increasing(AddedKeys(order, notes))
  {
    if order != [] {
      var init := order[..|order| - 1];
      var last := order[|order| - 1];
      assert Increasing(init) by {
        forall i, j | 0 <= i < j < |init| ensures Less(init[i], init[j]) {
          assert init[i] == order[i] && init[j] == order[j];
        }
      }
      AddedKeysIncreasing(init, notes);
      var prior := AddedKeys(init, notes);
      var keys := AddedKeys(order, notes);
      if last in notes && notes[last] != "" {
        assert keys == prior + [last];
        forall i, j | 0 <= i < j < |keys| ensures Less(keys[i], keys[j]) {
          if j == |prior| {
            AddedKeysExact(init, notes);
            assert keys[i] == prior[i];
            var p :| 0 <= p < |init| && init[p] == keys[i];
            assert order[p] == keys[i] && p < |order| - 1;
          } else {
            assert keys[i] == prior[i] && keys[j] == prior[j];
          }
        }
      } else {
        assert keys == prior;
      }
    }
  }

  /** _prepare_final_unindexed_content as a specification: one link line
      per currently unindexed key that is not kept, in ascending key order. */
  ghost function Additions(current: set<string>, kept: set<string>, notes: map<string, string>): (lines: seq<string>)
  {
    AddedLines(SortedSeq(current - kept), notes)
  }

  /** What the builder returns: exactly one "[[" + stem + "]]" per key of
      current - kept that has a non-empty stem, keys ascending; no kept key,
      and no key without a stem, yields a line. */
  lemma AdditionsExact(current: set<string>, kept: set<string>, notes: map<string, string>)
    ensures var keys := AddedKeys(SortedSeq(current - kept), notes);
      && Increasing(keys)
      && (forall k :: k in keys <==> k in current && k !in kept && k in notes && notes[k] != "")
      && |Additions(current, kept, notes)| == |keys|
      && (forall i :: 0 <= i < |keys| ==> Additions(current, kept, notes)[i] == "[[" + notes[keys[i]] + "]]")
  {
    var order := SortedSeq(current - kept);
    AddedKeysExact(order, notes);
    AddedKeysIncreasing(order, notes);
    AddedLinesOfKeys(order, notes);
  }

  lemma AddedLinesAppend(order: seq<string>, k: string, notes: map<string, string>)
    ensures AddedLines(order + [k], notes)
      == AddedLines(order, notes) + (if k in notes && notes[k] != "" then ["[[" + notes[k] + "]]"] else [])
  {
    assert (order + [k])[..|order|] == order;
  }

  /** _prepare_final_unindexed_content: sort the keys to add, then append a
      link line for each key whose stem is known and non-empty. The
      preserved lines are not used. */
  method PrepareAdditions(preserved: seq<string>, kept: set<string>, current: set<string>, notes: map<string, string>)
    returns (added: seq<string>)
    ensures added == Additions(current, kept, notes)
  {
    var order := SortSet(current - kept);
    added := LinkLines(order, notes);
  }

  /** The loop of _prepare_final_unindexed_content over the sorted keys. */
  method LinkLines(order: seq<string>, notes: map<string, string>) returns (added: seq<string>)
    ensures added == AddedLines(order, notes)
  {
    added := [];
    for i := 0 to |order|
      invariant added == AddedLines(order[..i], notes)
    {
      AddedLinesAppend(order[..i], order[i], notes);
      assert order[..i + 1] == order[..i] + [order[i]];
      var k := order[i];
      if k in notes && notes[k] != "" {
        added := added + ["[[" + notes[k] + "]]"];
      }
    }
    assert order[..|order|] == order;
  }
}
