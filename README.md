# zk_indexer in Dafny

A model of the Zettelkasten indexer in `src/main.py`, with proofs about it. A Zettelkasten is a folder of Markdown notes that link to each other with `[[wikilinks]]`. Some of those notes are index notes: their file name ends in `index.md`, ignoring case.

One run of the indexer:

1. lists the `.md` files of the folder;
2. keys every note by its normalised stem: lower case, each run of characters outside `[a-z0-9]` turned into one space, then stripped. The first stem seen for a key wins;
3. collects the normalised targets of every wikilink in the index notes;
4. appends a `[[stem]]` line to `temp index.md` for every note that no index note links to, in sorted key order;
5. puts the tag `#index` into every index note that lacks it, below the YAML front matter if there is any.

The modules follow the program's helpers:

| module | models |
|---|---|
| `Text` (text.dfy) | The Python string primitives the program relies on: `isspace`, `strip`/`lstrip`/`rstrip`, `lower`, `endswith`, `in`, `splitlines(True)` and `"".join` |
| `Keys` (normalize.dfy) | `_normalize_text_for_linking` |
| `Ordering` (ordering.dfy) | Python's string order and `sorted` over a set |
| `Paths` (paths.dfy) | `pathlib` suffix and stem, and `list_md_files_in_zettelkasten` |
| `Wikilinks` (wikilinks.dfy) | `re.findall` of the wikilink pattern, `extract_wikilinks_from_content` and `_extract_all_wikilinks_from_indices` |
| `Catalog` (catalog.dfy) | `_collect_note_and_index_data` |
| `Coverage` (coverage.dfy) | `_determine_unindexed_notes` |
| `Additions` (additions.dfy) | `_parse_existing_unindexed_file` and `_prepare_final_unindexed_content` |
| `Append` (append.dfy) | The content `_append_lines_to_file` leaves in a file |
| `Tagger` (tagger.dfy) | The per-file rewrite of `_ensure_index_file_tags` |
| `Indexer` (indexer.dfy) | The folder as a class `Folder`, which holds the file names in listing order and a map from name to content. Its methods update that state in place: appending, tagging and the four phases of `main` |

Pure helpers are functions, with lemmas about them. Helpers that loop are methods proved equal to those functions. These include the set-building loops, the front-matter search, sorting, the line scan and the writes.

The folder is an object. `AppendLines`, `WriteLines`, `UpdateUnindexed`, `EnsureIndexFileTags` and `Run` change its `files` map step by step, as the program changes the files on disk. Each states the new `files` map as a function of the old folder, and says how the listing `entries` changes: not at all, or by `temp index.md` added at its end when that file is created.

### Where the docstrings and the code differ (the model follows the code)

- **The auxiliary file.** The docstring of `_parse_existing_unindexed_file` says it reads an existing `unindexed.md` and preserves its relevant lines and its non-note content (`src/main.py:150`). The docstring of `_update_unindexed_md_file` says it coordinates the update of `unindexed.md` (`src/main.py:238`).
  - In the code, the existing content that `_parse_existing_unindexed_file` scans is the empty string (`src/main.py:154`). So nothing is ever preserved or kept.
  - The new lines are only appended to `temp index.md` (`src/main.py:246-248`); no `unindexed.md` is read or written.
  - `Additions.ParseExistingUnindexed` models the loop as written, and `Additions.ScanLines` models the same loop over any list of lines.
- **Index notes are unindexed too.** Index notes are themselves notes of the catalog. An index note that no index note links to is therefore listed as unindexed (`Coverage.Unindexed`).
- **The fullmatch and the strip.** Stripping the captured link text before normalising it changes nothing: the normaliser strips anyway. Writing the fullmatch line pattern as "the stripped line is `[[`, a `]`-free text, `]]`" captures the same key (`Additions.IsLinkLine`, `Additions.LineKey`).

### Behaviour worth knowing

- **Front matter that ends the file.** If the closing `---` line is the last line of an index note and has no newline, the tag is glued onto that line. The new content starts with the old content followed directly by `#index` (`Tagger.FenceGlue`), so the front matter is no longer closed.
- **Stems containing `]`.** The line written for a note whose stem has a single `]` that is not its last character, and no `[`, such as `a]b`, is `[[a]b]]`. `findall` captures nothing from it (`Wikilinks.BracketStemNotCaptured`). `temp index.md` is itself an index note once it exists, since its name ends in `index.md`, but this line links nothing. So such a note is appended to `temp index.md` again on every run, unless some index note links its key another way: the key of `a]b` is `a b`, and `[[a b]]` links it.

## Model

| member | source | states |
|---|---|---|
| `Text.IsSpace` | src/main.py:17 | The characters `str.isspace` accepts, which `strip`, `lstrip` and `rstrip` remove |
| `Text.IsLineBreak` | src/main.py:264 | The characters `splitlines` breaks a line at: `\n` to `\r`, U+1C to U+1E, U+85, U+2028 and U+2029 |
| `Text.LStrip` | src/main.py:17 | `lstrip`: drops the leading whitespace (properties in `Text.LStripSpec`) |
| `Text.RStrip` | src/main.py:294 | `rstrip`: drops the trailing whitespace (properties in `Text.RStripSpec`) |
| `Text.Strip` | src/main.py:17 | `strip` is `rstrip` after `lstrip` (properties in `Text.StripSlice` and `Text.StripUnchanged`) |
| `Text.LowerChar` | src/main.py:13 | The lower case of one character: ASCII capitals, U+212A to `k`, U+0130 to `i` and U+0307, every other character kept |
| `Text.Lower` | src/main.py:13 | `lower`, character by character (properties in `Text.LowerAppend` and `Text.LowerAgrees`) |
| `Text.StartsWith` | src/main.py:290 | `startswith`: the string begins with the prefix |
| `Text.EndsWith` | src/main.py:101 | `endswith`: the string ends with the suffix |
| `Text.Contains` | src/main.py:261 | The `in` operator on strings: the piece occurs at some position |
| `Text.Concat` | src/main.py:294 | `"".join` of a list of strings (properties in `Text.ConcatAppend`) |
| `Text.BreakIndex` | src/main.py:264 | The first line-break character of a text is at the returned index, and none comes before it |
| `Text.LineEnd` | src/main.py:264 | The first line of a non-empty text, with its line ending (`\r\n` counted as one), is non-empty and no longer than the text (where it ends: `Text.LineEndSpec`) |
| `Text.LineEndSpec` | src/main.py:264 | The first line holds no line break before its own ending (`\r\n` counted as one). When text follows, the line ends in a break, and a line ending in `\r` is not followed by `\n` |
| `Text.LStripSpec` | src/main.py:17 | `lstrip` keeps a suffix of its input, drops only whitespace, and what it keeps does not start with whitespace |
| `Text.RStripSpec` | src/main.py:294 | `rstrip` keeps a prefix of its input, drops only whitespace, and what it keeps does not end with whitespace |
| `Text.StripSlice` | src/main.py:17 | `strip` returns a contiguous slice of its input whose ends are not whitespace |
| `Text.StripUnchanged` | src/main.py:17 | Text that neither starts nor ends with whitespace is its own `strip` |
| `Text.LowerAppend` | src/main.py:13 | `lower` distributes over concatenation |
| `Text.LowerAgrees` | src/main.py:13 | Strings whose characters lower-case alike, position by position, have the same `lower` |
| `Text.ConcatAppend` | src/main.py:294 | `"".join` distributes over list concatenation |
| `Text.SplitLines` | src/main.py:264 | `splitlines(True)` yields only non-empty lines |
| `Text.ConcatSplitLines` | src/main.py:264 | Joining the lines of `splitlines(True)` gives back the text |
| `Text.SplitLinesBreaks` | src/main.py:264 | The lines of `splitlines(True)` end exactly at the line breaks: no line holds a break before its own ending, every line but the last ends in a break, and no `\r\n` is cut between two lines |
| `Keys.IsKeyChar` | src/main.py:15 | The class `[a-z0-9]` |
| `Keys.IsKey` | src/main.py:10-17 | A well-formed key: `[a-z0-9]` words joined by single spaces, no space at either end (every normalised name is one, by `Keys.NormalizeIsKey`) |
| `Keys.Normalize` | src/main.py:10-17 | `_normalize_text_for_linking`: `lower`, then the substitution, then `strip` (properties in the `Keys.Normalize*` lemmas) |
| `Keys.KeyChars` | src/main.py:15 | The `[a-z0-9]` characters of a text, in order: the reference `Keys.KeyCharsSquash` and `Keys.NormalizeKeepsKeyChars` compare with |
| `Keys.Squash` | src/main.py:15 | `re.sub('[^a-z0-9]+', ' ')` leaves only `[a-z0-9]` and spaces, and each space is followed by `[a-z0-9]` or ends the text. A leading `[a-z0-9]` character is kept |
| `Keys.NormalizeIsKey` | src/main.py:10-17 | Every normalised name is a well-formed key: `[a-z0-9]` words joined by single spaces, with no space at either end |
| `Keys.SliceOfSeparated` | src/main.py:15-17 | Stripping squashed text at non-space ends gives a well-formed key |
| `Keys.StripSeparated` | src/main.py:15-17 | `strip` of squashed text is a well-formed key |
| `Keys.SquashOfSeparated` | src/main.py:15 | The substitution leaves squashed text as it is |
| `Keys.LowerFixed` | src/main.py:13 | Text whose characters `lower` leaves alone is its own `lower` |
| `Keys.StripOfKey` | src/main.py:17 | A well-formed key is its own `strip` |
| `Keys.NormalizeFixedPoint` | src/main.py:10-17 | Every well-formed key normalises to itself |
| `Keys.NormalizeIdempotent` | src/main.py:10-17 | Normalising twice is normalising once |
| `Keys.NormalizeIgnoresCase` | src/main.py:13 | Names that differ only in letter case get the same key |
| `Keys.KeyCharsAppend` | src/main.py:15 | The `[a-z0-9]` characters of a concatenation are those of the parts |
| `Keys.KeyCharsSquash` | src/main.py:15 | The substitution keeps every `[a-z0-9]` character, in order, and adds none |
| `Keys.StripKeepsKeyChars` | src/main.py:17 | `strip` removes no `[a-z0-9]` character |
| `Keys.NormalizeKeepsKeyChars` | src/main.py:10-17 | The key holds exactly the letters and digits of the lower-cased name, in order |
| `Keys.SquashRun` | src/main.py:15 | A separator run up to a letter, a digit or the end becomes exactly one space |
| `Keys.SquashJoin` | src/main.py:15 | The substitution on "x, separator run, y" is that on x, one space, then that on y |
| `Keys.JoinedSquash` | src/main.py:13-15 | The same, after `lower` |
| `Keys.NormalizeIgnoresPunctuation` | src/main.py:10-17 | Names that differ only in the separator run between two words (`a-b`, `a  b`, `a_b`) get the same key |
| `Ordering.Less` | src/main.py:178 | Python's `<` on strings: by code point, a proper prefix first (a strict total order by `Ordering.LessIrreflexive`, `Ordering.LessTransitive`, `Ordering.LessTotal`) |
| `Ordering.Increasing` | src/main.py:178 | Strictly ascending, as `sorted` returns the elements of a set |
| `Ordering.IsLeast` | src/main.py:178 | The smallest element of a set |
| `Ordering.LessIrreflexive` | src/main.py:178 | No string sorts before itself |
| `Ordering.LessTransitive` | src/main.py:178 | String order is transitive |
| `Ordering.LessTotal` | src/main.py:178 | Of two distinct strings, one sorts first |
| `Ordering.LessAsymmetric` | src/main.py:178 | String order is asymmetric |
| `Ordering.LeastExists` | src/main.py:178 | Every non-empty set of strings has a least element |
| `Ordering.SortedSeq` | src/main.py:178 | `sorted` of a set is strictly ascending and holds exactly the set's elements |
| `Ordering.IncreasingUnique` | src/main.py:178 | Only one strictly ascending list holds a given set of strings, so the sorted order is unique |
| `Ordering.Least` | src/main.py:178 | Finds the least element of a non-empty set |
| `Ordering.SortSet` | src/main.py:178 | Selection sort returns exactly `sorted` of the set |
| `Paths.HasSuffix` | src/main.py:59 | `pathlib` splits a suffix off when the last `.` is neither the first nor the last character |
| `Paths.Suffix` | src/main.py:59 | `Path.suffix`: from the last `.` on, or empty (properties in `Paths.StemAndSuffix`) |
| `Paths.Stem` | src/main.py:93 | `Path.stem`: the name less its suffix (properties in `Paths.StemAndSuffix`) |
| `Paths.IsMarkdown` | src/main.py:59 | `item.suffix.lower() == ".md"` |
| `Paths.IsIndexName` | src/main.py:101 | `f.name.lower().endswith("index.md")` |
| `Paths.MarkdownNames` | src/main.py:58-60 | The listing filtered to Markdown names, in order (properties in `Paths.MarkdownNamesExact` and `Paths.MarkdownNamesAppend`) |
| `Paths.LastDot` | src/main.py:59 | The position of the suffix dot is -1 or an index of the name |
| `Paths.LastDotSpec` | src/main.py:59 | That position holds the last `.` of the name |
| `Paths.StemAndSuffix` | src/main.py:93 | Stem followed by suffix is the name. A non-empty suffix starts with its only `.` and has more after it |
| `Paths.MarkdownNamesExact` | src/main.py:58-60 | A name is listed iff it is in the folder and its suffix lower-cases to `.md` |
| `Paths.MarkdownNamesAppend` | src/main.py:58-60 | The filter distributes over the listing, so listing order is kept |
| `Paths.ListMarkdownFiles` | src/main.py:50-69 | The listing loop returns exactly the filtered listing |
| `Wikilinks.Close` | src/main.py:75 | Where the capture that starts after `[[` ends: at the first `]` |
| `Wikilinks.Opens` | src/main.py:75 | The pattern matches at the front of the text: `[[`, a non-empty `]`-free run, `]]` |
| `Wikilinks.BracketStemNotCaptured` | src/main.py:75-76 | The line `[[p]q]]` with `]`-free and `[`-free `p`, `[`-free `q` not starting with `]`, yields no target at all |
| `Wikilinks.TargetKey` | src/main.py:81 | The key of a captured target: the normalised form of its `strip` |
| `Wikilinks.KeySet` | src/main.py:78-81 | The set of keys of a list of captured targets (properties in `Wikilinks.KeySetExact`) |
| `Wikilinks.LinkSet` | src/main.py:71-83 | `extract_wikilinks_from_content` as a set: the keys of the captures of `findall` (properties in `Wikilinks.LinkSetSound`) |
| `Wikilinks.LinksOf` | src/main.py:112-130 | The union of the links of the readable index notes (properties in `Wikilinks.LinksOfExact`) |
| `Wikilinks.OpenRun` | src/main.py:75 | `[^\]]+` extends to the first `]`: nothing before it is `]` |
| `Wikilinks.FindAll` | src/main.py:75-76 | Every target `findall` captures is non-empty and `]`-free |
| `Wikilinks.ContainsSuffix` | src/main.py:76 | What a suffix of the text contains, the text contains |
| `Wikilinks.FindAllOccurs` | src/main.py:75-76 | Every captured target occurs in the text as `[[target]]` |
| `Wikilinks.FindAllNoOpening` | src/main.py:75-76 | Text without `[[` yields no targets |
| `Wikilinks.OpenRunOf` | src/main.py:75 | The target run stops exactly at the first `]` |
| `Wikilinks.FindAllLink` | src/main.py:75-76 | A text that starts with `[[t]]` yields `t`, then the targets of the rest |
| `Wikilinks.FindAllSkip` | src/main.py:75-76 | A `[`-free prefix contributes no targets |
| `Wikilinks.KeySetExact` | src/main.py:78-81 | A key is collected iff it is the stripped, normalised form of some captured target |
| `Wikilinks.KeySetAppend` | src/main.py:78-81 | Collecting keys distributes over the list of targets |
| `Wikilinks.LinkSetSound` | src/main.py:71-83 | Every extracted key comes from a `[[t]]` in the content, is well-formed and normalises to itself |
| `Wikilinks.LinkSetNoOpening` | src/main.py:71-83 | Content without `[[` has no links |
| `Wikilinks.LinkSetLink` | src/main.py:71-83 | Content that starts with `[[t]]` has the key of `t` plus the links of the rest |
| `Wikilinks.AddTargetKeys` | src/main.py:78-81 | The loop adds exactly the keys of the captured targets |
| `Wikilinks.ExtractWikilinks` | src/main.py:71-83 | Returns exactly the set of keys of the content's links |
| `Wikilinks.LinksOfExact` | src/main.py:112-130 | A key is linked iff some readable index note's content has it as a link |
| `Wikilinks.LinksOfAppend` | src/main.py:119-124 | The union over index notes distributes over the list |
| `Wikilinks.LinksFromIndices` | src/main.py:112-130 | The loop over index notes returns exactly that union, skipping unreadable ones |
| `Catalog.NoteOf` | src/main.py:92-94 | A file's key (its normalised stem) and its original stem |
| `Catalog.CatalogOf` | src/main.py:92-99 | `all_notes_data` after the loop: each key mapped to the stem of the first note with it (properties in `Catalog.CatalogFirst` and `Catalog.CatalogKeys`) |
| `Catalog.IndexFilesOf` | src/main.py:101-102 | `index_file_paths` after the loop: the index notes, in listing order (properties in `Catalog.IndexFilesExact` and `Catalog.IndexFilesAppend`) |
| `Catalog.KeysOf` | src/main.py:104 | The keys of the notes seen (properties in `Catalog.KeysOfExact`) |
| `Catalog.NotesOf` | src/main.py:92-94 | Built one file at a time as the loop sees them, it holds one (key, stem) record per file, the i-th being that of the i-th file (used by `Catalog.CatalogKeys` and `Catalog.CatalogStemsNormalize`) |
| `Catalog.KeysOfExact` | src/main.py:96-99 | A key is collected iff some note has it |
| `Catalog.CatalogKeySet` | src/main.py:96-104 | The catalog's keys are exactly the notes' keys |
| `Catalog.CatalogKeys` | src/main.py:96-104 | A key is in the catalog iff some listed note normalises to it |
| `Catalog.CatalogFirst` | src/main.py:96-99 | For a duplicate key, the stem kept is that of the first note listed with it |
| `Catalog.CatalogStems` | src/main.py:96-99 | Every catalog entry is the (key, stem) of a listed note |
| `Catalog.CatalogStemsNormalize` | src/main.py:93-99 | Every kept stem normalises to its key |
| `Catalog.IndexFilesExact` | src/main.py:101-102 | A file is an index note iff it is listed and its lower-cased name ends in `index.md` |
| `Catalog.IndexFilesAppend` | src/main.py:101-102 | The index list keeps listing order and multiplicity: the index files of two blocks are those of the first block followed by those of the second |
| `Catalog.Collect` | src/main.py:87-110 | The collection loop returns the catalog, the index notes in listing order, and the catalog's key set |
| `Coverage.UnindexedNameIsKey` | src/main.py:141 | `unindexed` normalises to itself, so the reserved key is the plain word |
| `Coverage.Unindexed` | src/main.py:132-147 | A key is unindexed iff it is a note's key, no index note links it, and it is not `unindexed` |
| `Additions.IsLinkLine` | src/main.py:156-157 | The `fullmatch` test: the stripped line is `[[`, a `]`-free text of at least one character, `]]` |
| `Additions.LineKey` | src/main.py:156-159 | The normalised key of the text between the brackets |
| `Additions.LinePreserved` | src/main.py:157-165 | What one line adds to `preserved_lines`: itself, unless it is a link line to a key outside the unindexed set |
| `Additions.LineKept` | src/main.py:157-163 | What one line adds to `kept_normalized_notes`: the key of a link line to an unindexed key |
| `Additions.PreservedOf` | src/main.py:155-165 | `preserved_lines` after the loop over the given lines (properties in `Additions.ScanSound`, `Additions.ScanComplete`, `Additions.PreservedAppend`) |
| `Additions.KeptOf` | src/main.py:155-165 | `kept_normalized_notes` after the loop over the given lines (properties in `Additions.ScanSound`, `Additions.ScanComplete`, `Additions.KeptAppend`) |
| `Additions.AddedLines` | src/main.py:182-186 | `added_lines_content` after the loop over the given keys (properties in `Additions.AddedLinesOfKeys` and `Additions.AddedLinesAppend`) |
| `Additions.Additions` | src/main.py:169-191 | `_prepare_final_unindexed_content`: the lines for the sorted unindexed keys that are not kept (properties in `Additions.AdditionsExact`) |
| `Additions.ScanSound` | src/main.py:155-165 | Every kept key is an unindexed key named by a preserved link line. Every preserved line is an input line that is not a link line or links to an unindexed key |
| `Additions.ScanComplete` | src/main.py:155-165 | Every input line that is not a link line, or that links to an unindexed key, is preserved. The key of every such link line is kept |
| `Additions.ScanSnoc` | src/main.py:155-165 | One more line adds exactly that line's contribution at the end of the preserved lines, and its key if any to the kept keys |
| `Additions.PreservedAppend` | src/main.py:155-165 | The scan is an order-preserving filter: the preserved lines of two blocks are those of the first block followed by those of the second |
| `Additions.KeptAppend` | src/main.py:155-165 | The kept keys of two blocks are the union of each block's kept keys |
| `Additions.ScanLines` | src/main.py:155-165 | The scan loop returns exactly the preserved lines and the kept keys |
| `Additions.ParseExistingUnindexed` | src/main.py:149-167 | As written, nothing is preserved and nothing is kept |
| `Additions.AddedKeys` | src/main.py:182-184 | Only keys with a non-empty stem in the catalog are written |
| `Additions.AddedLinesOfKeys` | src/main.py:182-186 | The i-th added line is `[[stem]]` of the i-th written key |
| `Additions.AddedKeysExact` | src/main.py:182-189 | A key is written iff it is in the order and has a non-empty stem |
| `Additions.AddedKeysIncreasing` | src/main.py:178-186 | Keys are written in the order given, so ascending keys stay ascending |
| `Additions.AdditionsExact` | src/main.py:169-191 | Exactly one `[[stem]]` line for each new unindexed key that has a stem, ascending by key, and none for kept keys |
| `Additions.AddedLinesAppend` | src/main.py:182-186 | Building the lines distributes over the order |
| `Additions.PrepareAdditions` | src/main.py:169-191 | Returns exactly those lines |
| `Additions.LinkLines` | src/main.py:182-189 | The loop over the sorted keys builds exactly the `[[stem]]` lines of the keys that have a stem |
| `Append.Newlines` | src/main.py:228 | `"\n" * n` |
| `Append.PrefixCount` | src/main.py:199-223 | `num_newlines_to_prefix`: none after `\n\n`, one after `\n`, two otherwise or for a missing or empty file (properties in `Append.PrefixCountLeast`) |
| `Append.Terminated` | src/main.py:230-231 | The text the write loop adds: each line and its `\n` (properties in `Append.TerminatedAppend`, `Append.TerminatedSplits`) |
| `Append.Appended` | src/main.py:193-234 | The file content after `_append_lines_to_file` (properties in `Append.AppendedShape`) |
| `Append.EndsWithBreaks` | src/main.py:213-216 | What the two newline tests mean on the last characters |
| `Append.PaddedAt` | src/main.py:227-228 | The characters of the content after the newline prefix |
| `Append.PrefixCountLeast` | src/main.py:199-223 | The prefix is at most two newlines. It is the fewest after which the old content ends in a blank line |
| `Append.TerminatedAppend` | src/main.py:230-231 | Writing one more line adds that line and its newline |
| `Append.AppendedShape` | src/main.py:193-234 | The old content is kept as a prefix. When lines are added, a blank line separates old and new, the new text is each line with its newline, and the file ends in a newline |
| `Append.TerminatedEnd` | src/main.py:230-231 | Written lines end in a newline |
| `Append.BreakIndexOf` | src/main.py:230-231 | A break-free line is split at its own end |
| `Append.TerminatedSplits` | src/main.py:230-231 | Written break-free lines read back with `splitlines(True)` as the same lines with their newlines |
| `Tagger.IsFence` | src/main.py:266-268 | A front-matter fence: a line whose `strip` is `---` |
| `Tagger.FrontMatter` | src/main.py:276-277 | The lines kept before the tag line: through the closing fence, or none |
| `Tagger.Gap` | src/main.py:279-281 | The blank line right after the front matter, which the tag line replaces |
| `Tagger.Body` | src/main.py:276-292 | The lines kept after the tag line |
| `Tagger.Processed` | src/main.py:272-292 | `processed_lines`: front matter, tag line, body (properties in `Tagger.SpliceLines`, `Tagger.ConcatProcessed`) |
| `Tagger.Tagged` | src/main.py:258-296 | The content an index note ends with (properties in `Tagger.TaggedContainsTag`, `Tagger.TaggedIdempotent`, `Tagger.TaggedSplice`) |
| `Tagger.ValidTag` | src/main.py:294 | A tag that does not end in whitespace survives `rstrip`; `#index` is one |
| `Tagger.FenceFrom` | src/main.py:267-270 | The first `---` line from a position on, or -1 if there is none |
| `Tagger.FrontMatterEnd` | src/main.py:265-270 | The closing fence is -1 or a line after the first |
| `Tagger.FindFrontMatterEnd` | src/main.py:264-270 | The search loop finds exactly the closing fence of front matter that opens on the first line |
| `Tagger.LinesSplit` | src/main.py:276-292 | The lines split into front matter, an optional blank gap line and the body. The front matter runs from the opening fence to the first closing fence |
| `Tagger.TagContent` | src/main.py:258-300 | Returns the rewritten content and writes iff it differs. Content that already has the tag is left alone |
| `Tagger.RStripKeepsOccurrence` | src/main.py:294 | `rstrip` keeps every occurrence of a tag that does not end in whitespace |
| `Tagger.ConcatProcessed` | src/main.py:272-294 | The joined lines are the front matter, the tag line and the body |
| `Tagger.OccursInPrefix` | src/main.py:294 | An occurrence survives appending |
| `Tagger.StrippedHoldsTag` | src/main.py:272-294 | The rewritten text holds the tag right after the front matter |
| `Tagger.TaggedContainsTag` | src/main.py:258-297 | After tagging, the note contains the tag |
| `Tagger.TaggedIdempotent` | src/main.py:258-300 | Tagging a tagged note changes nothing |
| `Tagger.TaggedAlwaysWrites` | src/main.py:261-296 | The rewrite differs from the content iff the tag was missing, so the equality guard never skips a write |
| `Tagger.TaggedEnding` | src/main.py:294 | A rewritten note ends in exactly one newline after non-whitespace |
| `Tagger.SpliceLines` | src/main.py:276-294 | The lines joined are front matter, a blank gap and the body. Processing replaces the gap with the tag line |
| `Tagger.TaggedSplice` | src/main.py:258-294 | The content is front matter, blank gap and body, and the rewrite is front matter, tag line and body, right-stripped, plus one newline |
| `Tagger.TaggedWithoutFrontMatter` | src/main.py:286-294 | Without front matter, the tag line goes first, followed by the whole content |
| `Tagger.ProcessedAfterFence` | src/main.py:276-285 | When the closing fence is the last line, the joined lines are the whole content followed by the tag line |
| `Tagger.StripKeepsGlued` | src/main.py:294 | Right-stripping text that ends in the tag and a newline keeps everything up to the tag |
| `Tagger.FenceGlue` | src/main.py:276-285 | When the closing fence is the last line, the tag is written directly after the old content |
| `Indexer.ContentOf` | src/main.py:200-223 | The content of a file; a missing file reads as empty |
| `Indexer.AfterUpdate` | src/main.py:237-248 | The folder after `_update_unindexed_md_file` (properties in `Indexer.AfterUpdateSpec`) |
| `Indexer.TagStep` | src/main.py:258-304 | One index note processed by `_ensure_index_file_tags`; a missing one is skipped |
| `Indexer.TagAll` | src/main.py:251-304 | The folder after `_ensure_index_file_tags` (properties in `Indexer.TagAllSpec`) |
| `Indexer.Phases` | src/main.py:331-339 | Phases 3 and 4 of `main` (properties in `Indexer.PhasesSpec`) |
| `Indexer.RunFiles` | src/main.py:307-339 | The folder after a whole run, with its early exits (properties in `Indexer.RunChangesOnlyIndexNotes`) |
| `Indexer.Distinct` | src/main.py:58 | No name is listed twice, as in a directory listing |
| `Indexer.TagAllSpec` | src/main.py:251-304 | Tagging keeps the set of files. Every index note becomes its tagged form and every other file is unchanged |
| `Indexer.AfterUpdateSpec` | src/main.py:237-248 | The update touches only `temp index.md`, keeps its old content as a prefix, and creates no other file |
| `Indexer.PhasesSpec` | src/main.py:329-339 | After phases 3 and 4, no file is lost and no file other than `temp index.md` is created. Only that file and the index notes change, and every index note contains `#index` |
| `Indexer.RunChangesOnlyIndexNotes` | src/main.py:307-341 | A whole run deletes nothing and creates nothing but `temp index.md`. It leaves every other non-index file as it was, and every index note ends up containing `#index` |
| `Indexer.Folder.AppendLines` | src/main.py:193-234 | Appending sets the file to the appended content, or leaves everything unchanged when there are no lines. A missing file is created at the end of the listing |
| `Indexer.Folder.WriteLines` | src/main.py:230-231 | The write loop adds each line and its newline to the file, and nothing else changes |
| `Indexer.Folder.UpdateUnindexed` | src/main.py:237-248 | The folder becomes the old folder with the additions appended to `temp index.md`. The listing gains `temp index.md` at its end exactly when that file is created |
| `Indexer.Folder.EnsureIndexFileTags` | src/main.py:251-304 | The folder becomes the old folder with each index note tagged in turn, missing ones skipped. No file is created or deleted and the listing is unchanged |
| `Indexer.Folder.Run` | src/main.py:307-341 | The folder becomes the result of the four phases on the old listing and contents, with the early exits when there are no Markdown files or no notes. The listing gains `temp index.md` at its end exactly when the run creates that file |

## Left out

- Loading the configuration (`load_zettelkasten_path`, `src/main.py:19-48`): the folder is a `Folder` object given to `Run`. The cases where the configuration is missing or unreadable, or the path is not a directory, all end the run before it touches anything.
- Logging: it changes no file.
- The filesystem:
  - The listing order of `iterdir` is the order of `Folder.entries`.
  - Every entry is a regular file; sub-directories are not modelled.
  - File content is the decoded text as `read_text` returns it. The translation of `\r` and `\r\n` line ends on read and write, and UTF-8 decoding errors, are not modelled.
- Exceptions on reading: an index note that cannot be read is modelled as a name missing from the folder and is skipped (`Wikilinks.LinksOf`, `Indexer.TagStep`). A valid `Folder` lists exactly the files it holds, so `Folder.Run` never takes that skip: only the functions `RunFiles`, `LinksOf` and `TagStep` model it. Other read errors, write errors and the `stat` fallback are not modelled.
- The byte-level end-of-file probe of `_append_lines_to_file` is modelled on characters (`Append.PrefixCount`). The decoded last two bytes end in `\n` or `\n\n` exactly when the text does, because a newline is a single byte in UTF-8.
- `Text.LowerChar`: lower-cases ASCII letters, U+212A and U+0130. Every other character is kept unchanged. Every use of `lower` in the program tests only for ASCII characters, and no other character's lower case contains an ASCII character.
- Concurrency: another process editing the folder during a run is not modelled.
