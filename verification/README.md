# notes-mcp: the note store and its search index, in Dafny

This project models the two pure-logic components of notes-mcp: the
versioned note store (`NotesStorage`, `src/storage.py`) and the lexical
search index built on top of it (`NotesSearcher`, `src/search.py`).

Every note version is one Markdown file `<safe title>_<timestamp>.md`
inside one directory per project. The store:

- sanitises project names and titles;
- writes a new file per version;
- finds a version by globbing the title's prefix and picking the greatest
  file name, or the first one containing a requested version;
- enumerates projects and notes by splitting file stems at their last `_`.

The searcher rebuilds an index of the latest version of every
(project, title) pair. It scores each indexed note with a fuzzy scorer
against a threshold, sorts the hits by descending score (stably), and cuts
an excerpt around the first case-insensitive literal match.

The directory tree is a value. `FileSystem.Base` holds the base directory's
project sub-directories and its own plain files. Both are insertion-ordered
dictionaries (`Dict.Dict`, a sequence of key/value pairs), so the order in
which the operating system lists entries is part of the input. That order
decides which note wins a timestamp tie in `rebuild_index`. It also decides
the order in which the rebuilt index lists projects, and titles within a
project: each comes at the position of its first note in `get_all_notes`
(`Searcher.RebuildIndexOrder`). Search collects results project by project
and title by title in that index order, and its stable sort keeps that
order among equal scores. The clock reading `store_note` would take
from `datetime.now()` is a parameter. The fuzzy scorer
`fuzz.partial_ratio` is a function parameter (`Searcher.Scorer`).

Modules, one per concept:

- `Results`: `Option`, `Result` and the errors the store raises.
- `Strings`: ASCII `isalnum`/`isspace`/`lower`, `find`, `replace`, and
  Python's lexicographic `str` order.
- `StringSort`: `sorted` on strings, ascending and descending.
- `Dict`: Python `dict` with insertion order.
- `Grouping`: the "keep the entry with the strictly greatest timestamp per
  key" loop. It occurs in both `list_notes` and `rebuild_index`.
- `FileSystem`: the directory tree and reading a file. `FileSystem.ReadFile`
  opens a path in text mode: it yields the file's content with every
  `\r\n` and every lone `\r` read as `\n` (Python's default
  `newline=None`), or not-found when the path names no file. Writes store
  the text unchanged, as text mode does on POSIX systems.
- `Naming`: the sanitiser, file names, and parsing stems back.
- `Storage`: `NotesStorage`.
- `Searcher`: `NotesSearcher` and `SearchResult`.

The model follows the code's quirks as written, and lemmas exhibit them:

- The version glob `<safe title>_*.md` also catches longer titles sharing
  the prefix. See `Storage.PrefixTitleCollision`.
- A requested version matches any file name that contains it as a
  substring. See `Storage.VersionSubstringMatch`.
- The reported timestamp turns every `-` back into `:`, the date's hyphens
  included. See `Naming.ClockReadingRoundTrip`.
- A note stored with Windows line endings comes back with `\n` line
  endings. See `Storage.CarriageReturnsLost` and the finding below.

## Model

| member | source | states |
|---|---|---|
| Naming.Sanitize | src/storage.py:32-34 | a sanitised name consists only of ASCII alphanumerics, `-` and `_` (no space, `/`, `:` or `*`) |
| Naming.SanitizeFixedPoints | src/storage.py:50-51 | the sanitiser leaves a name unchanged exactly when it already consists only of alphanumerics, `-` and `_` |
| Naming.SanitizeIdempotent | src/storage.py:50-51 | sanitising twice gives the same name as sanitising once |
| Naming.KeepAllowed | src/storage.py:50 | the filter keeps only alphanumerics, space, `-` and `_`, and keeps a name made only of those unchanged |
| Naming.KeepAllowedOne | src/storage.py:50 | one character survives the filter exactly when it is an alphanumeric, space, `-` or `_` |
| Naming.KeepAllowedConcat | src/storage.py:50 | the filter works piecewise: filtering a concatenation concatenates the filtered parts, so survivors keep their order |
| Naming.StripLeadingDrops | src/storage.py:50 | stripping removes exactly the leading run of whitespace, up to the first non-space |
| Naming.StripTrailingDrops | src/storage.py:50 | stripping removes exactly the trailing run of whitespace, after the last non-space |
| Naming.SanitizeKeepsAlnums | src/storage.py:50-51 | every letter and digit of the input survives sanitising, in its order, and no other letter or digit appears |
| Naming.SanitizeInner | src/storage.py:50-51 | a name of allowed characters with no surrounding whitespace only has its inner spaces turned into `_` |
| Naming.SanitizeJoin | src/storage.py:50-51 | two safe words separated by a space become the two words joined by `_` |
| Naming.VersionToken | src/storage.py:56-57 | the file-name form of a timestamp contains no `:` and contains `_` exactly when the timestamp does |
| Naming.FileName | src/storage.py:49-59 | a generated file name has no `:`, starts with the sanitised title followed by `_`, and ends in `.md` |
| Naming.FileNameRoundTrip | src/storage.py:59 | splitting a generated name's stem at its last `_` gives back the sanitised title and the version token, when the timestamp holds no `_` |
| Naming.SplitLast | src/storage.py:160-162 | `rsplit("_", 1)` yields two parts exactly when the stem holds a `_`; they rejoin with `_` into the stem, and the second part holds no `_` |
| Naming.LastPart | src/storage.py:129 | `split("_")[-1]` holds no `_` and is what follows the stem's last `_` |
| Naming.FileNameHasToken | src/storage.py:59 | a generated file name contains the version token of its timestamp |
| Naming.ClockReadingRoundTrip | src/storage.py:57 | the reported timestamp equals the clock reading the name was made from exactly when that reading holds no `-` |
| Naming.VersionTokenOfVersion | src/storage.py:110 | turning a `:`-free token's `-` into `:` and back to `-` restores the token |
| Storage.ProjectFolderSanitized | src/storage.py:32-35 | a project named by its own sanitised form reaches the same folder |
| Storage.ProjectFolderReads | src/storage.py:35-37 | a file of the project folder is exactly a readable path under the sanitised project name, and reads the folder's content with its line endings translated |
| Storage.StoreNoteProjectFolder | src/storage.py:72-77 | after a store the project folder exists and lists the new file with the stored content, and every other file as before |
| Storage.StoreNote | src/storage.py:61-79 | within the modelled tree (plain files, no operating-system errors), a store fails exactly when the project directory cannot be created or the file name in the base directory is taken by a directory, and otherwise returns the path `<sanitised project>/<FileName(title, now)>` |
| Storage.StoreNoteReadsBack | src/storage.py:72-77 | after a store, the returned path reads the stored content, with `\r\n` and lone `\r` read as `\n` |
| Storage.StoreNoteFrame | src/storage.py:76-77 | a store changes no other path |
| Storage.StoreNoteWellFormed | src/storage.py:72-77 | a store keeps names unique within each directory |
| Storage.VersionCandidates | src/storage.py:102-103 | the candidates are exactly the folder's names that match `<safe title>_*.md` |
| Storage.FirstContaining | src/storage.py:111-115 | the loop finds nothing exactly when no name contains the token, and otherwise finds the first name that does |
| Storage.SelectVersion | src/storage.py:103-122 | with no version, the choice is the greatest candidate; with a version, it is the greatest candidate containing the hyphenated version; it is absent exactly when there is no candidate or no candidate contains that token |
| Storage.RetrieveNote | src/storage.py:97-131 | retrieval fails with not-found exactly when no file matches the title pattern or a requested version is in no candidate name; otherwise it returns the selected file's content as a text-mode read translates it, and the text after its stem's last `_` with `-` turned into `:` |
| Storage.StoreThenRetrieve | src/storage.py:61-131 | right after a store whose name sorts last, retrieving the title with no version, or with the clock reading, returns the stored content with its line endings translated, and the clock reading with `-` turned into `:` |
| Storage.StoreThenRetrieveExact | src/storage.py:61-131 | under the same conditions, content without a carriage return comes back exactly as stored |
| Storage.CarriageReturnsLost | src/storage.py:125-126 | under the same conditions, content holding a carriage return comes back different from what was stored |
| Storage.CrLfExample | src/storage.py:125-126 | the stored text `a\r\nb` reads back as `a\nb` |
| Storage.RetrieveReportedVersion | src/storage.py:109-129 | passing the reported timestamp back as the version never raises not-found, and it selects the same note when none was requested at first |
| Storage.TimestampOccurs | src/storage.py:110-113 | the reported timestamp of a `:`-free name, hyphenated again, occurs in that name |
| Storage.PrefixTitleCollision | src/storage.py:102-103 | the latest version of title `A` can be a file of note `A B`, because `A_*.md` matches `A_B_2.md` and that name sorts last |
| Storage.VersionSubstringMatch | src/storage.py:112-114 | requesting version `1` can select file `N_15.md`, because the match is by substring |
| Storage.ListProjects | src/storage.py:139-143 | the projects are the directory names with `_` turned into a space, each once per directory, in ascending order; no directory gives an empty list |
| Storage.ParseName | src/storage.py:158-161 | a name parses exactly when it ends in `.md` and its stem holds a `_`; other files are skipped |
| Storage.ParseNameParts | src/storage.py:160-164 | a parsed title is the stem's text before its last `_` with `_` turned into a space, and the timestamp is the `_`-free text after it with `-` turned into `:` |
| Storage.TitleStamps | src/storage.py:158-164 | the (title, timestamp) pairs read are exactly those some file of the folder parses to |
| Storage.ListNotes | src/storage.py:154-175 | titles come out strictly ascending, so at most once each; each comes from some file; every parsed title is listed; its version is the greatest timestamp read for it |
| Storage.FolderNotes | src/storage.py:191-203 | the records of one project are exactly those of its parsable files, with display project, title, path and converted timestamp |
| Storage.GetAllNotes | src/storage.py:183-205 | the records are exactly those of the files of every project sub-directory; base-directory files are not visited |
| Storage.FolderNotesOne | src/storage.py:191-203 | one file yields no record when its name does not parse, and otherwise exactly its own record |
| Storage.FolderNotesConcat | src/storage.py:191 | a folder's records follow its files' listing order: the records of a concatenation are the records of the parts, in turn |
| Storage.FolderNotesDistinct | src/storage.py:191-203 | a folder with distinct file names yields each file's record at most once |
| Storage.GetAllNotesOne | src/storage.py:185-191 | a single project directory contributes its folder's records |
| Storage.GetAllNotesConcat | src/storage.py:185 | project directories contribute in listing order, one directory's records after another's |
| Storage.GetAllNotesIgnoresFiles | src/storage.py:185-187 | plain files of the base directory contribute nothing |
| Storage.GetAllNotesDistinct | src/storage.py:183-205 | in a well-formed tree no file is reported twice |
| Storage.GetAllNotesReadable | src/storage.py:201 | in a well-formed tree, every path `get_all_notes` reports can be read |
| Grouping.GroupLatest | src/storage.py:166-167 | the grouping keeps one entry per key present in the input, and each kept entry has the greatest timestamp of its key, beating every earlier entry of that key strictly |
| Grouping.GroupLatestOrder | src/search.py:40-44 | the kept keys come in the order of each key's first input: a key enters when first seen, and a replacement keeps its place |
| Grouping.GroupLatestCount | src/search.py:40-44 | the grouping keeps as many entries as there are distinct keys |
| Grouping.LatestBounds | src/search.py:41-44 | every key of the input is kept, and no input of that key has a greater timestamp than the kept entry |
| StringSort.Sort | src/storage.py:143 | `sorted` returns a permutation of its input in ascending order |
| StringSort.SortIsSorted | src/storage.py:143 | any ascending permutation of the input is the result of `sorted` |
| StringSort.SortDescending | src/storage.py:103 | `sorted(reverse=True)` returns a permutation in descending order |
| Dict.PutKeys | src/search.py:44 | an assignment keeps the key order: an existing key keeps its place, and a new key goes last |
| FileSystem.ReadFile | src/storage.py:125-126 | a read fails with not-found exactly when the path names no file, and otherwise yields the file's text with line endings translated |
| FileSystem.UniversalNewlines | src/storage.py:216-217 | text read in text mode holds no carriage return and is no longer than the stored text |
| FileSystem.UniversalNewlinesUnchanged | src/storage.py:216-217 | text reads back unchanged exactly when it holds no carriage return |
| FileSystem.UniversalNewlinesIdempotent | src/storage.py:216-217 | translating read text again changes nothing |
| FileSystem.UniversalNewlinesConcat | src/storage.py:216-217 | text split anywhere except right after a `\r` translates part by part |
| Strings.Find | src/search.py:129 | `find` returns -1 exactly when the query does not occur, and otherwise the first position where it does |
| Searcher.AddToIndex | src/search.py:51-58 | after the assignment, the pair is indexed with the new entry |
| Searcher.AddToIndexOther | src/search.py:51-58 | the assignment changes no other pair's presence or entry |
| Searcher.LatestNotesDistinct | src/search.py:40-44 | the kept notes have pairwise different (project, title) pairs |
| Searcher.LatestNotesAreLatest | src/search.py:41-44 | each kept note has a timestamp at least that of every note of its pair, and greater than those listed before it, so ties keep the first |
| Searcher.LatestNotesCover | src/search.py:41-44 | every pair among the notes has a kept note |
| Searcher.LatestNotesCount | src/search.py:40-44 | as many notes are kept as there are distinct pairs |
| Searcher.LatestNotesOrder | src/search.py:40-44 | the kept notes come in the order of each pair's first note |
| Searcher.BuildIndexSucceeds | src/search.py:48-59 | building the index succeeds exactly when every kept note's file can be read |
| Searcher.BuildIndexPairs | src/search.py:48-58 | the built index holds exactly the pairs of the notes it was built from |
| Searcher.AddToIndexKeys | src/search.py:51-58 | entering a note keeps the order of projects and of the note's project's titles; a new project or title goes last |
| Searcher.BuildIndexProjects | src/search.py:48-53 | a project has a table exactly when some note entered belongs to it |
| Searcher.BuildIndexOrder | src/search.py:48-58 | the built index lists projects, and titles within each project, in the order of their first note among the notes entered |
| Searcher.BuildIndexEntry | src/search.py:54-58 | each indexed entry holds its note's content, timestamp and path |
| Searcher.RebuildIndex | src/search.py:30-61 | a rebuild can fail only with not-found |
| Searcher.RebuildIndexSucceeds | src/search.py:48-49 | on a well-formed tree the rebuild does not fail |
| Searcher.RebuildIndexWellFormed | src/search.py:51-58 | the rebuilt index repeats no project and no title within a project |
| Searcher.RebuildIndexCount | src/search.py:47-61 | the returned count is the number of distinct (project, title) pairs among all notes |
| Searcher.RebuildIndexPairs | src/search.py:36-58 | the new index holds exactly the pairs among all notes, and nothing from before the rebuild |
| Searcher.RebuildIndexOrder | src/search.py:36-58 | the rebuilt index lists projects in the order of each project's first note in `get_all_notes`, and each project's titles in the order of each title's first note in that project |
| Searcher.RebuildIndexLatest | src/search.py:40-58 | each indexed entry is the content, timestamp and path of the latest note of its pair |
| Searcher.Excerpt | src/search.py:125-148 | without a case-insensitive match, the excerpt is the first 300 characters, with `...` exactly when the content is longer; with one, it is the content from up to 150 characters before the first match to up to 150 after it, with `...` before exactly when it starts after 0 and after exactly when it ends before the end |
| Searcher.ExcerptShowsMatch | src/search.py:135-146 | when the query occurs, the excerpt contains it case-insensitively |
| Searcher.BestScore | src/search.py:89-93 | the best score is one of the title and content scores of the lower-cased strings, and at least both |
| Searcher.TableHits | src/search.py:85-107 | each hit of a project's table belongs to that project and reaches the threshold |
| Searcher.TableHitsMembers | src/search.py:85-107 | a project's hits are exactly its notes whose best score reaches the threshold, each with its content, score and excerpt |
| Searcher.TableHitsOnce | src/search.py:85-107 | each note of a table is reported at most once |
| Searcher.Collect | src/search.py:81-107 | every collected result reaches the threshold |
| Searcher.CollectMembers | src/search.py:81-107 | the collected results are exactly the hits of the listed projects that are in the index |
| Searcher.SearchedProjects | src/search.py:79 | a non-empty given project is searched alone; otherwise every indexed project is |
| Searcher.SortByScore | src/search.py:110 | the sort returns a permutation with non-increasing scores, keeping the order of results with equal scores |
| Searcher.ByScoreUnique | src/search.py:110 | two sequences ordered by score with the same per-score order are equal |
| Searcher.SortByScoreIsStableSort | src/search.py:110 | any stable descending ordering of the results is what the sort returns |
| Searcher.Search | src/search.py:76-112 | the results come in non-increasing score order, equal scores in collection order |
| Searcher.SearchFinds | src/search.py:79-107 | a result is reported exactly when it is the hit of an indexed note in a searched project whose best score reaches the threshold; a given project confines the results to it |
| Searcher.SearchWithDefaults | src/search.py:63-95 | with its default arguments, search covers every indexed project and reports exactly the notes whose best score is at least 60 |
| Searcher.SearchUnknownProject | src/search.py:79-83 | a given project absent from the index yields no results |
| Searcher.SearchOnce | src/search.py:79-107 | no (project, title) pair is reported twice |
| Searcher.SearchThresholdMonotone | src/search.py:95 | a higher threshold reports a subset of the results |
| Searcher.SearchIgnoresCase | src/search.py:89-90 | queries that differ only in ASCII letter case return the same results |

## Left out

- File I/O, `aiofiles` and `async`: the directory tree is a value, reads are lookups, and `store_note` returns the new tree.
- The `mkdir` that `_get_project_dir` performs in `retrieve_note` and `list_notes`. A missing project directory reads as empty, but the model does not return the tree with the new directory.
- `datetime.now()`: the clock reading is a parameter of `Storage.StoreNote`.
- `fuzz.partial_ratio`: a function parameter. The model assumes nothing about its values, so the search properties hold for every scorer.
- `read_note_content` (src/storage.py:207-217) is modelled as `FileSystem.ReadFile` inside the rebuild, with the same newline translation.
- Storage.StoreNote: only failures of the modelled tree are stated. Operating-system errors are not modelled: a file name longer than the file system allows (255 bytes on most), missing permissions, a full disk. A directory named like the new file inside a project folder cannot be represented, because a folder holds only plain files; there `open(..., "w")` raises `IsADirectoryError`, where the model stores the note.
- Text-mode writes on Windows turn `\n` into `\r\n`. The model writes as POSIX systems do, leaving the text unchanged.
- Searcher.RebuildIndex: when a read fails in the middle of the rebuild, the source leaves `self.index` partly filled. The model returns the error and no index, because the searcher's state is not modelled.
- Unicode: `isalnum`, `isspace` and `lower` are modelled for ASCII only. Strings are sequences of characters with no normalisation.
- Storage.RetrieveNote, Storage.ListNotes and Storage.GetAllNotes: a folder is modelled as its plain files only. A sub-directory the glob would match is not seen. That is a directory named `*.md` inside a project folder. It is also a directory named `<safe title>_*.md` inside the base directory, when the project name sanitises to "" and the base directory is the project folder. On such a directory `retrieve_note` raises `IsADirectoryError` once it selects it, where the model selects another version or reports not-found. `list_notes` and `get_all_notes` also list it, and the model does not.
- Storage.WriteNote: a newly created file or project directory is placed last in the listing order. The operating system promises no such order. No proved property depends on it: the store lemmas speak of paths and contents, not positions.
- The glob is assumed case-sensitive, as on POSIX systems, and hidden names are not treated specially.
- `delete_note`: it is called by the server but not defined in src/storage.py, so there is nothing to model.
- src/vector_store.py, src/server.py, src/web_server.py and example_summarization.py: adapters and a client around the core.
- Scores are `real`. Floating-point rounding is not modelled; the threshold comparison `best_score >= threshold` compares against the integer threshold.

## Findings

| source | as written | input that shows it | evidently intended | confidence | as-written member | corrected member |
|---|---|---|---|---|---|---|
| src/storage.py:125-126 | `store_note` writes the content in text mode, unchanged on POSIX (src/storage.py:76-77), and `retrieve_note` reads it back in text mode with the default newline handling, which turns `\r\n` and lone `\r` into `\n` | storing `a\r\nb` (browser forms send `\r\n` line endings) and retrieving it returns `a\nb` | retrieving a note just stored returns exactly the stored content | medium, not executed | Storage.CarriageReturnsLost | Storage.StoreThenRetrieveExact |
