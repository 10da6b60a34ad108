/** Phase 1 of the indexer: the catalog of notes by normalised name and the
    list of index notes (_collect_note_and_index_data in src/main.py). */
module Catalog {
  import opened Keys
  import opened Paths

  /** A markdown file as the catalog sees it: its key (normalised stem) and
      its original stem. */
  datatype Note = Note(key: string, stem: string)

  function NoteOf(name: string): (n: Note)
  {
    Note(Normalize(Stem(name)), Stem(name))
  }

  /** The notes of a list of files, in order. */
  function NotesOf(files: seq<string>): (ns: seq<Note>)
    ensures |ns| == |files|
    ensures forall i :: 0 <= i < |files| ==> ns[i] == NoteOf(files[i])
  {
    if files == [] then [] else NotesOf(files[..|files| - 1]) + [NoteOf(files[|files| - 1])]
  }

  /** all_notes_data once the loop has seen the notes `ns`: each key is
      mapped to the stem of the first note that has it; later notes with
      the same key leave the entry alone. */
  function CatalogOf(ns: seq<Note>): (notes: map<string, string>)
  {
    if ns == [] then map[]
    else
      var notes := CatalogOf(ns[..|ns| - 1]);
      var n := ns[|ns| - 1];
      if n.key in notes then notes else notes[n.key := n.stem]
  }

  /** index_file_paths once the loop has seen `files`: the files whose
      lower-cased name ends with "index.md", in order. */
  function IndexFilesOf(files: seq<string>): (index: seq<string>)
  {
    if files == [] then []
    else
      var f := files[|files| - 1];
      IndexFilesOf(files[..|files| - 1]) + (if IsIndexName(f) then [f] else [])
  }

  /** The keys of a sequence of notes. */
  function KeysOf(ns: seq<Note>): (keys: set<string>)
  {
    if ns == [] then {} else KeysOf(ns[..|ns| - 1]) + {ns[|ns| - 1].key}
  }

  lemma {:induction false} KeysOfExact(ns: seq<Note>, k: string)
    ensures k in KeysOf(ns) <==> exists i :: 0 <= i < |ns| && ns[i].key == k
  {
    if ns != [] {
      var last := |ns| - 1;
      var init := ns[..last];
      KeysOfExact(init, k);
      if k in KeysOf(init) {
        var i :| 0 <= i < |init| && init[i].key == k;
        assert ns[i] == init[i];
      }
      if exists i :: 0 <= i < |ns| && ns[i].key == k {
        var i :| 0 <= i < |ns| && ns[i].key == k;
        if i < last {
          assert init[i] == ns[i];
        }
      }
    }
  }

  lemma {:induction false} CatalogKeySet(ns: seq<Note>)
    ensures CatalogOf(ns).Keys == KeysOf(ns)
  {
    if ns != [] {
      CatalogKeySet(ns[..|ns| - 1]);
    }
  }

  /** The catalog has exactly the keys of the input notes. */
  lemma CatalogKeys(ns: seq<Note>, k: string)
    ensures k in CatalogOf(ns) <==> exists i :: 0 <= i < |ns| && ns[i].key == k
  {
    CatalogKeySet(ns);
    KeysOfExact(ns, k);
  }

  /** On a collision the earliest note wins: the entry of a key is the stem
      of the first note that has that key. */
  lemma {:induction false} CatalogFirst(ns: seq<Note>, i: int)
    requires 0 <= i < |ns|
    requires forall j :: 0 <= j < i ==> ns[j].key != ns[i].key
    ensures ns[i].key in CatalogOf(ns)
    ensures CatalogOf(ns)[ns[i].key] == ns[i].stem
  {
    var last := |ns| - 1;
    var init := ns[..last];
    if i == last {
      CatalogKeys(init, ns[i].key);
      forall j | 0 <= j < |init| ensures init[j].key != ns[i].key {
        assert init[j] == ns[j];
      }
    } else {
      assert init[i] == ns[i];
      forall j | 0 <= j < i ensures init[j].key != init[i].key {
        assert init[j] == ns[j];
      }
      CatalogFirst(init, i);
    }
  }

  /** Every entry of the catalog is one of the input notes. */
  lemma {:induction false} CatalogStems(ns: seq<Note>)
    ensures forall k :: k in CatalogOf(ns) ==> Note(k, CatalogOf(ns)[k]) in ns
  {
    if ns != [] {
      var init := ns[..|ns| - 1];
      CatalogStems(init);
      forall k | k in CatalogOf(ns) ensures Note(k, CatalogOf(ns)[k]) in ns {
        if k in CatalogOf(init) && CatalogOf(ns)[k] == CatalogOf(init)[k] {
          var i :| 0 <= i < |init| && init[i] == Note(k, CatalogOf(init)[k]);
          assert ns[i] == init[i];
        } else {
          assert ns[|ns| - 1] == Note(k, CatalogOf(ns)[k]);
        }
      }
    }
  }

  /** For the files of a folder: every stored stem normalises to its own
      key. */
  lemma CatalogStemsNormalize(files: seq<string>)
    ensures forall k :: k in CatalogOf(NotesOf(files)) ==> Normalize(CatalogOf(NotesOf(files))[k]) == k
  {
    var ns := NotesOf(files);
    CatalogStems(ns);
    forall k | k in CatalogOf(ns) ensures Normalize(CatalogOf(ns)[k]) == k {
      var i :| 0 <= i < |ns| && ns[i] == Note(k, CatalogOf(ns)[k]);
      assert ns[i] == NoteOf(files[i]);
    }
  }

  /** The index list holds exactly the input files with an index name
      (whether or not their key duplicates an earlier one), and nothing
      else. */
  lemma {:induction false} IndexFilesExact(files: seq<string>)
    ensures forall x :: x in IndexFilesOf(files) <==> x in files && IsIndexName(x)
    ensures |IndexFilesOf(files)| <= |files|
  {
    if files != [] {
      var n := |files| - 1;
      IndexFilesExact(files[..n]);
      assert files == files[..n] + [files[n]];
    }
  }

  /** The index list keeps the listing order: the index files of two
      blocks of files are those of the first block, then those of the
      second. */
  lemma {:induction false} IndexFilesAppend(a: seq<string>, b: seq<string>)
    ensures IndexFilesOf(a + b) == IndexFilesOf(a) + IndexFilesOf(b)
  {
    if b == [] {
      assert a + b == a;
    } else {
      var init, f := b[..|b| - 1], b[|b| - 1];
      IndexFilesAppend(a, init);
      assert (a + b)[..|a + b| - 1] == a + init;
      assert (a + b)[|a + b| - 1] == f;
      var last := if IsIndexName(f) then [f] else [];
      calc {
        IndexFilesOf(a + b);
        IndexFilesOf(a + init) + last;
        (IndexFilesOf(a) + IndexFilesOf(init)) + last;
        IndexFilesOf(a) + (IndexFilesOf(init) + last);
        IndexFilesOf(a) + IndexFilesOf(b);
      }
    }
  }

  /** _collect_note_and_index_data: the loop over the markdown files. */
  method Collect(files: seq<string>) returns (notes: map<string, string>, index: seq<string>, names: set<string>)
    ensures notes == CatalogOf(NotesOf(files))
    ensures index == IndexFilesOf(files)
    ensures names == notes.Keys
  {
    notes := map[];
    index := [];
    for i := 0 to |files|
      invariant notes == CatalogOf(NotesOf(files[..i]))
      invariant index == IndexFilesOf(files[..i])
    {
      var f := files[i];
      ghost var seen := NotesOf(files[..i]);
      assert files[..i + 1][..i] == files[..i];
      assert NotesOf(files[..i + 1]) == seen + [NoteOf(f)];
      assert (seen + [NoteOf(f)])[..|seen|] == seen;
      var originalStem := Stem(f);
      var key := Normalize(originalStem);
      if key !in notes {
        notes := notes[key := originalStem];
      }
      if IsIndexName(f) {
        index := index + [f];
      }
    }
    assert files[..|files|] == files;
    names := notes.Keys;
  }
}
