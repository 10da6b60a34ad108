/** The indexer run (main in src/main.py, phases 1 to 4) over an in-memory
    folder whose files are updated in place. */
module Indexer {
  import opened Text
  import opened Paths
  import opened Wikilinks
  import opened Catalog
  import opened Coverage
  import opened Additions
  import opened Append
  import opened Tagger

  /** The file the additions are appended to, in the notes folder. */
  const TempIndexName: string := "temp index.md"

  /** The tag every index note must contain. */
  const IndexTag: string := "#index"

  /** The content of a file, a missing file reading as empty. */
  function ContentOf(files: map<string, string>, name: string): (content: string)
  {
    if name in files then files[name] else ""
  }

  /** The folder after _update_unindexed_md_file: the additions appended to
      "temp index.md" (created if missing) when there are any. */
  ghost function AfterUpdate(files: map<string, string>, unindexed: set<string>, notes: map<string, string>)
    : (after: map<string, string>)
  {
    var added := Additions.Additions(unindexed, {}, notes);
    if added == [] then files
    else files[TempIndexName := Appended(ContentOf(files, TempIndexName), added)]
  }

  /** The folder after _ensure_index_file_tags has processed `index` in
      order; a name that is not in the folder is skipped. */
  function TagAll(files: map<string, string>, index: seq<string>, tag: string): (after: map<string, string>)
  {
    if index == [] then files
    else TagStep(TagAll(files, index[..|index| - 1], tag), index[|index| - 1], tag)
  }

  /** One index note processed by _ensure_index_file_tags. */
  function TagStep(files: map<string, string>, name: string, tag: string): (after: map<string, string>)
  {
    if name in files then files[name := Tagged(files[name], tag)] else files
  }

  /** Tagging touches only the index notes, each of which ends up as the
      tagged form of its content; the set of files does not change. */
  lemma {:induction false} TagAllSpec(files: map<string, string>, index: seq<string>, tag: string)
    requires ValidTag(tag)
    ensures TagAll(files, index, tag).Keys == files.Keys
    ensures forall n :: n in files && n !in index ==> TagAll(files, index, tag)[n] == files[n]
    ensures forall n :: n in files && n in index ==> TagAll(files, index, tag)[n] == Tagged(files[n], tag)
  {
    if index != [] {
      var init := index[..|index| - 1];
      var name := index[|index| - 1];
      TagAllSpec(files, init, tag);
      assert index == init + [name];
      if name in files {
        if name in init {
          TaggedIdempotent(files[name], tag);
        }
      }
    }
  }

  /** The update touches "temp index.md" alone, and only adds to it. */
  lemma AfterUpdateSpec(files: map<string, string>, unindexed: set<string>, notes: map<string, string>)
    ensures files.Keys <= AfterUpdate(files, unindexed, notes).Keys <= files.Keys + {TempIndexName}
    ensures forall n :: n in files && n != TempIndexName ==> AfterUpdate(files, unindexed, notes)[n] == files[n]
    ensures || AfterUpdate(files, unindexed, notes) == files
            || StartsWith(AfterUpdate(files, unindexed, notes)[TempIndexName], ContentOf(files, TempIndexName))
  {
    var added := Additions.Additions(unindexed, {}, notes);
    if added != [] {
      AppendedShape(ContentOf(files, TempIndexName), added);
    }
  }

  /** Phases 3 and 4 of main for the index notes `index`. */
  ghost function Phases(files: map<string, string>, unindexed: set<string>, notes: map<string, string>, index: seq<string>)
    : (after: map<string, string>)
  {
    TagAll(AfterUpdate(files, unindexed, notes), index, IndexTag)
  }

  lemma PhasesSpec(files: map<string, string>, unindexed: set<string>, notes: map<string, string>, index: seq<string>)
    ensures files.Keys <= Phases(files, unindexed, notes, index).Keys <= files.Keys + {TempIndexName}
    ensures forall n :: n in files && n != TempIndexName && n !in index ==> Phases(files, unindexed, notes, index)[n] == files[n]
    ensures forall n :: n in files && n in index ==> Contains(Phases(files, unindexed, notes, index)[n], IndexTag)
  {
    var updated := AfterUpdate(files, unindexed, notes);
    AfterUpdateSpec(files, unindexed, notes);
    assert ValidTag(IndexTag);
    TagAllSpec(updated, index, IndexTag);
    forall n | n in files && n in index
      ensures Contains(Phases(files, unindexed, notes, index)[n], IndexTag)
    {
      TaggedContainsTag(updated[n], IndexTag);
    }
  }

  /** The folder after phases 1 to 4 of main, for a folder whose files are
      listed in the order `entries`. */
  ghost function RunFiles(entries: seq<string>, files: map<string, string>): (after: map<string, string>)
  {
    var md := MarkdownNames(entries);
    if md == [] then files
    else
      var notes := CatalogOf(NotesOf(md));
      var index := IndexFilesOf(md);
      if notes.Keys == {} then files
      else Phases(files, Unindexed(notes.Keys, LinksOf(index, files)), notes, index)
  }

  /** A run changes nothing but "temp index.md" and the index notes: it
      deletes no file and creates none but "temp index.md", every index
      note afterwards contains the index tag, and every other note keeps
      its content. */
  lemma RunChangesOnlyIndexNotes(entries: seq<string>, files: map<string, string>)
    ensures files.Keys <= RunFiles(entries, files).Keys <= files.Keys + {TempIndexName}
    ensures forall n :: (n in files && n != TempIndexName && !(n in entries && IsMarkdown(n) && IsIndexName(n))
                         ==> RunFiles(entries, files)[n] == files[n])
    ensures forall n :: (n in files && n in entries && IsMarkdown(n) && IsIndexName(n)
                         ==> Contains(RunFiles(entries, files)[n], IndexTag))
  {
    var md := MarkdownNames(entries);
    MarkdownNamesExact(entries);
    if md != [] {
      var notes := CatalogOf(NotesOf(md));
      var index := IndexFilesOf(md);
      IndexFilesExact(md);
      CatalogKeys(NotesOf(md), NotesOf(md)[0].key);
      assert NotesOf(md)[0].key in notes;
      PhasesSpec(files, Unindexed(notes.Keys, LinksOf(index, files)), notes, index);
    }
  }

  /** No name is listed twice, as in a directory listing. */
  predicate Distinct(names: seq<string>)
  {
    names == [] || (names[|names| - 1] !in names[..|names| - 1] && Distinct(names[..|names| - 1]))
  }

  /** The notes folder: the names of its files in listing order and their
      contents. */
  class Folder {
    var entries: seq<string>
    var files: map<string, string>

    ghost predicate Valid()
      reads this
    {
      Distinct(entries) && (forall n :: n in files <==> n in entries)
    }

    constructor (entries: seq<string>, files: map<string, string>)
      requires Distinct(entries)
      requires forall n :: n in files <==> n in entries
      ensures Valid()
      ensures this.entries == entries && this.files == files
    {
      this.entries := entries;
      this.files := files;
    }

    /** _append_lines_to_file: the newline prefix, then every line with its
        "\n", written in append mode; opening creates a missing file. */
    method AppendLines(name: string, lines: seq<string>)
      requires Valid()
      modifies this
      ensures Valid()
      ensures files == if lines == [] then old(files)
        else old(files)[name := Appended(ContentOf(old(files), name), lines)]
      ensures entries == if lines == [] || name in old(files) then old(entries) else old(entries) + [name]
    {
      if lines == [] {
        return;
      }
      var before := ContentOf(files, name);
      if name !in files {
        assert (entries + [name])[..|entries|] == entries;
        entries := entries + [name];
      }
      files := files[name := before + Newlines(PrefixCount(before))];
      WriteLines(name, lines);
    }

    /** The loop of _append_lines_to_file: each line and its "\n" written
        at the end of the open file `name`. */
    method WriteLines(name: string, lines: seq<string>)
      requires name in files
      modifies this
      ensures entries == old(entries)
      ensures files == old(files)[name := old(files)[name] + Terminated(lines)]
    {
      ghost var start := files[name];
      assert Terminated(lines[..0]) == [];
      assert start + Terminated(lines[..0]) == start;
      assert files == files[name := start];
      for i := 0 to |lines|
        invariant entries == old(entries)
        invariant files == old(files)[name := start + Terminated(lines[..i])]
      {
        ghost var done := Terminated(lines[..i]);
        TerminatedAppend(lines[..i], lines[i]);
        assert lines[..i + 1] == lines[..i] + [lines[i]];
        assert start + done + lines[i] + "\n" == start + (done + lines[i] + "\n");
        files := files[name := files[name] + lines[i] + "\n"];
      }
      assert lines[..|lines|] == lines;
    }

    /** _update_unindexed_md_file: parse (nothing, as shipped), build the
        additions, append them to "temp index.md". */
    method UpdateUnindexed(unindexed: set<string>, notes: map<string, string>)
      requires Valid()
      modifies this
      ensures Valid()
      ensures files == AfterUpdate(old(files), unindexed, notes)
      ensures files.Keys == old(files).Keys || files.Keys == old(files).Keys + {TempIndexName}
      ensures entries == if files.Keys == old(files).Keys then old(entries) else old(entries) + [TempIndexName]
    {
      var preserved, kept := ParseExistingUnindexed(unindexed);
      var added := PrepareAdditions(preserved, kept, unindexed, notes);
      if added != [] {
        AppendLines(TempIndexName, added);
      }
    }

    /** _ensure_index_file_tags: each index note that lacks the tag is
        rewritten with it; one that cannot be read is skipped. */
    method EnsureIndexFileTags(index: seq<string>, tag: string)
      requires Valid()
      modifies this
      ensures Valid()
      ensures entries == old(entries)
      ensures files.Keys == old(files).Keys
      ensures files == TagAll(old(files), index, tag)
    {
      for i := 0 to |index|
        invariant Valid()
        invariant entries == old(entries)
        invariant files.Keys == old(files).Keys
        invariant files == TagAll(old(files), index[..i], tag)
      {
        assert index[..i + 1][..i] == index[..i];
        var name := index[i];
        ghost var before := files;
        if name in files {
          var result, write := TagContent(files[name], tag);
          if write {
            files := files[name := result];
          } else {
            assert files[name := result] == files;
          }
        }
        assert files == TagStep(before, name, tag);
        assert files.Keys == before.Keys;
      }
      assert index[..|index|] == index;
    }

    /** main, phases 1 to 4: collect the notes, read the links of the index
        notes, append the unindexed notes to "temp index.md", tag the index
        notes. */
    method Run()
      requires Valid()
      modifies this
      ensures Valid()
      ensures files == RunFiles(old(entries), old(files))
      ensures entries == if files.Keys == old(files).Keys then old(entries) else old(entries) + [TempIndexName]
    {
      var md := ListMarkdownFiles(entries);
      if md == [] {
        return;
      }
      var notes, index, names := Collect(md);
      if names == {} {
        return;
      }
      var linked := LinksFromIndices(index, files);
      var unindexed := Unindexed(names, linked);
      UpdateUnindexed(unindexed, notes);
      EnsureIndexFileTags(index, IndexTag);
    }
  }
}
