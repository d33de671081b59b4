/** `NotesStorage`: versioned notes kept as one file per version under one
    directory per project. Every operation takes the directory state as a
    value; `store_note` returns the new state, and the clock reading it
    would take from `datetime.now()` is a parameter. */
module Storage {
  import opened Results
  import opened Strings
  import opened StringSort
  import opened Dict
  import opened Grouping
  import opened FileSystem
  import opened Naming

  /** One entry of `list_notes`. */
  datatype Summary = Summary(title: string, latestVersion: string)

  /** One entry of `get_all_notes`. */
  datatype NoteRef = NoteRef(project: string, title: string, path: NotePath, timestamp: string)

  /** `_get_project_dir(project)`, seen through what it then lists: the
      folder of the sanitised project name. A missing directory is created
      empty; an existing plain file of that name makes `mkdir` fail. An
      empty sanitised name denotes the base directory itself. */
  function ProjectFolder(b: Base, project: string): (r: Result<Folder>)
    ensures r.Err? <==> FolderAt(b, Sanitize(project)).None? && HasKey(b.files, Sanitize(project))
    ensures r.Err? ==> r.error == FileExists
    ensures r.Ok? && FolderAt(b, Sanitize(project)).Some? ==> r.value == FolderAt(b, Sanitize(project)).value
    ensures r.Ok? && FolderAt(b, Sanitize(project)).None? ==> r.value == []
  {
    var name := Sanitize(project);
    match FolderAt(b, name)
    case Some(folder) => Ok(folder)
    case None => if HasKey(b.files, name) then Err(FileExists) else Ok([])
  }

  // ---------------------------------------------------------------- store

  /** The write `store_note` performs once the project directory exists
      (or is about to be created): `content` goes to `dir/name`. */
  function WriteNote(b: Base, dir: string, name: string, content: string): Base {
    if dir == "" then Base(b.dirs, Put(b.files, name, content))
    else if HasKey(b.dirs, dir) then Base(Put(b.dirs, dir, Put(Get(b.dirs, dir), name, content)), b.files)
    else Base(Put(b.dirs, dir, Put([], name, content)), b.files)
  }

  /** `store_note(project, title, content)` at clock reading `now`: writes
      `content` to `<project dir>/<FileName(title, now)>`, creating the
      project directory when it is missing, and returns the new state and
      the path written. It fails when the project name is taken by a plain
      file, or, for an empty project name, when the file name is taken by
      a directory. */
  function StoreNote(b: Base, project: string, title: string, content: string, now: string): (r: Result<(Base, NotePath)>)
    ensures r.Err? <==>
      || (Sanitize(project) != "" && !HasKey(b.dirs, Sanitize(project)) && HasKey(b.files, Sanitize(project)))
      || (Sanitize(project) == "" && HasKey(b.dirs, FileName(title, now)))
    ensures r.Err? && Sanitize(project) == "" ==> r.error == IsADirectory
    ensures r.Err? && Sanitize(project) != "" ==> r.error == FileExists
    ensures r.Ok? ==> r.value.1 == NotePath(Sanitize(project), FileName(title, now))
  {
    var dir := Sanitize(project);
    var name := FileName(title, now);
    if dir == "" && HasKey(b.dirs, name) then Err(IsADirectory)
    else if dir != "" && !HasKey(b.dirs, dir) && HasKey(b.files, dir) then Err(FileExists)
    else Ok((WriteNote(b, dir, name, content), NotePath(dir, name)))
  }

  /** The returned path now reads the stored content, with its line
      endings translated as a text-mode read does. */
  lemma StoreNoteReadsBack(b: Base, project: string, title: string, content: string, now: string)
    requires StoreNote(b, project, title, content, now).Ok?
    ensures var (b', p) := StoreNote(b, project, title, content, now).value;
      ReadFile(b', p) == Ok(UniversalNewlines(content))
  {
  }

  /** Every other path reads as before. */
  lemma StoreNoteFrame(b: Base, project: string, title: string, content: string, now: string, p: NotePath)
    requires StoreNote(b, project, title, content, now).Ok?
    requires p != StoreNote(b, project, title, content, now).value.1
    ensures ReadFile(StoreNote(b, project, title, content, now).value.0, p) == ReadFile(b, p)
  {
    var (b', q) := StoreNote(b, project, title, content, now).value;
    if p.dir == q.dir {
      assert p.file != q.file;
    }
  }

  /** A store keeps the directory tree well formed. */
  lemma StoreNoteWellFormed(b: Base, project: string, title: string, content: string, now: string)
    requires WellFormed(b) && StoreNote(b, project, title, content, now).Ok?
    ensures WellFormed(StoreNote(b, project, title, content, now).value.0)
  {
    var (b', q) := StoreNote(b, project, title, content, now).value;
    forall d | HasKey(b'.dirs, d) ensures d != "" && !HasKey(b'.files, d) && DistinctKeys(Get(b'.dirs, d)) {
      if q.dir == "" {
        assert d != q.file;
      }
    }
  }

  /** The project name is sanitised once: naming a project by its
      sanitised form reaches the same folder. */
  lemma ProjectFolderSanitized(b: Base, project: string)
    ensures ProjectFolder(b, Sanitize(project)) == ProjectFolder(b, project)
  {
    SanitizeIdempotent(project);
  }

  /** The project folder is what paths under the sanitised project name
      read: a file is readable there exactly when the folder lists it, and
      it reads the listed content, line endings translated. */
  lemma ProjectFolderReads(b: Base, project: string, name: string)
    ensures ReadFile(b, NotePath(Sanitize(project), name)).Ok? <==>
      ProjectFolder(b, project).Ok? && HasKey(ProjectFolder(b, project).value, name)
    ensures ReadFile(b, NotePath(Sanitize(project), name)).Ok? ==>
      ReadFile(b, NotePath(Sanitize(project), name)).value == UniversalNewlines(Get(ProjectFolder(b, project).value, name))
  {
  }

  /** After a store, the project folder lists the new file with the stored
      content, and every other file of the folder as it was before (a
      missing folder counting as empty). */
  lemma StoreNoteProjectFolder(b: Base, project: string, title: string, content: string, now: string)
    requires StoreNote(b, project, title, content, now).Ok?
    ensures ProjectFolder(b, project).Ok?
    ensures var b' := StoreNote(b, project, title, content, now).value.0;
      && ProjectFolder(b', project).Ok?
      && HasKey(ProjectFolder(b', project).value, FileName(title, now))
      && Get(ProjectFolder(b', project).value, FileName(title, now)) == content
    ensures var b' := StoreNote(b, project, title, content, now).value.0;
      forall n :: n != FileName(title, now) ==>
        && (HasKey(ProjectFolder(b', project).value, n) <==> HasKey(ProjectFolder(b, project).value, n))
        && (HasKey(ProjectFolder(b, project).value, n) ==>
              Get(ProjectFolder(b', project).value, n) == Get(ProjectFolder(b, project).value, n))
  {
    StoreNoteReadsBack(b, project, title, content, now);
  }

  // ------------------------------------------------------------- retrieve

  /** The names `glob(f"{safe_title}_*.md")` matches. The sanitised title
      holds no glob metacharacter, so the pattern is a prefix, a suffix, and
      a wildcard that may match nothing. */
  predicate MatchesVersionGlob(name: string, safeTitle: string) {
    |name| >= |safeTitle| + 1 + |Extension| && StartsWith(name, safeTitle + "_") && EndsWith(name, Extension)
  }

  /** The file names of a folder that match the version glob, in listing
      order. */
  function VersionCandidates(folder: Folder, safeTitle: string): (r: seq<string>)
    ensures forall n :: n in r <==> HasKey(folder, n) && MatchesVersionGlob(n, safeTitle)
  {
    if |folder| == 0 then []
    else
      HasKeyFirst(folder);
      (if MatchesVersionGlob(folder[0].0, safeTitle) then [folder[0].0] else [])
        + VersionCandidates(folder[1..], safeTitle)
  }

  /** Python's `if version:` — an empty version string counts as absent. */
  predicate Requested(version: Option<string>) {
    version.Some? && version.value != ""
  }

  /** The loop `for v in versions: if version_safe in v.name: ...; break`. */
  function FirstContaining(names: seq<string>, token: string): (r: Option<string>)
    ensures r.None? <==> forall i :: 0 <= i < |names| ==> !Contains(names[i], token)
    ensures r.Some? ==> exists i :: (0 <= i < |names| && names[i] == r.value && Contains(r.value, token)
      && forall j :: 0 <= j < i ==> !Contains(names[j], token))
  {
    if |names| == 0 then None
    else if Contains(names[0], token) then Some(names[0])
    else
      var r := FirstContaining(names[1..], token);
      assert r.Some? ==> exists i :: (0 <= i < |names| && names[i] == r.value && Contains(r.value, token)
        && forall j :: 0 <= j < i ==> !Contains(names[j], token)) by {
        if r.Some? {
          var i :| 0 <= i < |names[1..]| && names[1..][i] == r.value && Contains(r.value, token)
            && forall j :: 0 <= j < i ==> !Contains(names[1..][j], token);
          assert names[i + 1] == r.value;
          forall j | 0 <= j < i + 1 ensures !Contains(names[j], token) {
            if j > 0 {
              assert names[j] == names[1..][j - 1];
            }
          }
        }
      }
      assert (forall i :: 0 <= i < |names[1..]| ==> !Contains(names[1..][i], token))
        ==> forall i :: 0 <= i < |names| ==> !Contains(names[i], token) by {
        forall i | 0 < i < |names| ensures names[i] == names[1..][i - 1] { }
      }
      r
  }

  /** `retrieve_note`'s choice among the candidates: sort them in
      descending order, then take the first, or, when a version is
      requested, the first whose name contains the version with `:`
      replaced by `-`. The choice is the greatest candidate, respectively
      the greatest candidate containing that token. */
  function SelectVersion(candidates: seq<string>, version: Option<string>): (r: Option<string>)
    ensures r.Some? ==> r.value in candidates
    ensures r.None? <==> (|candidates| == 0 ||
      (Requested(version) && forall n :: n in candidates ==> !Contains(n, VersionToken(version.value))))
    ensures r.Some? && !Requested(version) ==> forall n :: n in candidates ==> LessEq(n, r.value)
    ensures r.Some? && Requested(version) ==> Contains(r.value, VersionToken(version.value))
    ensures r.Some? && Requested(version) ==>
      forall n :: n in candidates && Contains(n, VersionToken(version.value)) ==> LessEq(n, r.value)
  {
    var versions := SortDescending(candidates);
    SameMembers(versions, candidates);
    if |versions| == 0 then None
    else if Requested(version) then
      var token := VersionToken(version.value);
      var r := FirstContaining(versions, token);
      FirstContainingGreatest(versions, token);
      r
    else
      assert versions[0] in versions;
      forall n | n in candidates ensures LessEq(n, versions[0]) {
        DescendingHeadIsMax(versions, n);
      }
      Some(versions[0])
  }

  /** A reordering has the members of what it reorders. */
  lemma SameMembers(a: seq<string>, b: seq<string>)
    requires multiset(a) == multiset(b)
    ensures forall n :: n in a <==> n in b
  {
    forall n ensures n in a <==> n in b {
      assert n in a <==> n in multiset(a);
      assert n in b <==> n in multiset(b);
    }
  }

  /** In descending order, the first name containing the token is the
      greatest such name. */
  lemma FirstContainingGreatest(versions: seq<string>, token: string)
    requires Descending(versions)
    ensures FirstContaining(versions, token).Some? ==>
      forall n :: n in versions && Contains(n, token) ==> LessEq(n, FirstContaining(versions, token).value)
  {
    var r := FirstContaining(versions, token);
    if r.Some? {
      var i :| 0 <= i < |versions| && versions[i] == r.value && Contains(r.value, token)
        && forall j :: 0 <= j < i ==> !Contains(versions[j], token);
      forall n | n in versions && Contains(n, token) ensures LessEq(n, r.value) {
        var j :| 0 <= j < |versions| && versions[j] == n;
        assert !(j < i);
      }
    }
  }

  /** `target_file.stem.split("_")[-1].replace("-", ":")`: the timestamp
      `retrieve_note` reports for a file name. */
  function TimestampOf(name: string): string {
    VersionOf(LastPart(Stem(name)))
  }

  /** `retrieve_note(project, title, version)`: the content and reported
      timestamp of the selected version. */
  function RetrieveNote(b: Base, project: string, title: string, version: Option<string>): (r: Result<(string, string)>)
    ensures r.Err? && r.error == FileExists <==> ProjectFolder(b, project).Err?
    ensures r == Err(NotFound) <==> (ProjectFolder(b, project).Ok? &&
      var cands := VersionCandidates(ProjectFolder(b, project).value, Sanitize(title));
      (|cands| == 0 || (Requested(version) && forall n :: n in cands ==> !Contains(n, VersionToken(version.value)))))
    ensures r.Ok? ==> (ProjectFolder(b, project).Ok? &&
      var folder := ProjectFolder(b, project).value;
      var chosen := SelectVersion(VersionCandidates(folder, Sanitize(title)), version);
      (chosen.Some? && HasKey(folder, chosen.value)
       && r.value == (UniversalNewlines(Get(folder, chosen.value)), TimestampOf(chosen.value))))
  {
    match ProjectFolder(b, project)
    case Err(e) => Err(e)
    case Ok(folder) =>
      match SelectVersion(VersionCandidates(folder, Sanitize(title)), version)
      case None => Err(NotFound)
      case Some(name) => Ok((UniversalNewlines(Get(folder, name)), TimestampOf(name)))
  }

  // ----------------------------------------------------------- enumeration

  /** `list_projects()`: the sub-directory names with `_` turned into a
      space, sorted. */
  function ListProjects(b: Base): (r: seq<string>)
    ensures Ascending(r)
    ensures multiset(r) == multiset(seq(|b.dirs|, i requires 0 <= i < |b.dirs| => DisplayName(b.dirs[i].0)))
    ensures |r| == |b.dirs|
  {
    var names := seq(|b.dirs|, i requires 0 <= i < |b.dirs| => DisplayName(b.dirs[i].0));
    var r := Sort(names);
    assert |r| == |multiset(r)| == |multiset(names)| == |names|;
    r
  }

  /** What `list_notes` and `get_all_notes` read from a file that
      `glob("*.md")` matched: the stem split at its last `_`, the title
      with `_` turned into a space and the timestamp with `-` turned into
      `:`. Stems without `_` yield nothing. */
  function ParseName(name: string): (r: Option<(string, string)>)
    ensures r.Some? <==> EndsWith(name, Extension) && '_' in Stem(name)
  {
    if !EndsWith(name, Extension) then None
    else match SplitLast(Stem(name))
      case None => None
      case Some(parts) => Some((DisplayName(parts.0), VersionOf(parts.1)))
  }

  /** A parsed title is the stem before its last `_`, with `_` turned
      into a space; the timestamp is the rest, with `-` turned into `:`. */
  lemma ParseNameParts(name: string)
    requires ParseName(name).Some?
    ensures exists head, tail :: (Stem(name) == head + "_" + tail && '_' !in tail
      && ParseName(name).value == (DisplayName(head), VersionOf(tail)))
  {
    var parts := SplitLast(Stem(name)).value;
    assert Stem(name) == parts.0 + "_" + parts.1 && '_' !in parts.1;
  }

  /** Some file of `folder` parses to title `t` and timestamp `s`. */
  ghost predicate Parses(folder: Folder, t: string, s: string) {
    exists i :: 0 <= i < |folder| && ParseName(folder[i].0) == Some((t, s))
  }

  lemma ParsesFirst(folder: Folder, t: string, s: string)
    requires |folder| > 0
    ensures Parses(folder, t, s) <==> ParseName(folder[0].0) == Some((t, s)) || Parses(folder[1..], t, s)
  {
    if Parses(folder, t, s) {
      var i :| 0 <= i < |folder| && ParseName(folder[i].0) == Some((t, s));
      if i > 0 {
        assert folder[1..][i - 1] == folder[i];
      }
    }
    if Parses(folder[1..], t, s) {
      var i :| 0 <= i < |folder[1..]| && ParseName(folder[1..][i].0) == Some((t, s));
      assert folder[i + 1] == folder[1..][i];
    }
  }

  /** The (title, timestamp) pairs `list_notes` reads from a folder, in
      listing order, each keyed by title and stamped by timestamp. */
  function TitleStamps(folder: Folder): (r: seq<Stamped<string, string>>)
    ensures forall x :: x in r <==> x.value == x.stamp && Parses(folder, x.key, x.stamp)
  {
    if |folder| == 0 then []
    else
      var rest := TitleStamps(folder[1..]);
      var head := match ParseName(folder[0].0)
        case None => []
        case Some(p) => [Stamped(p.0, p.1, p.1)];
      forall x ensures x in head + rest <==> x.value == x.stamp && Parses(folder, x.key, x.stamp) {
        ParsesFirst(folder, x.key, x.stamp);
      }
      head + rest
  }

  /** What `list_notes` promises about a folder: titles strictly
      ascending, every title and version read from some file, every file's
      title listed, and each listed version the greatest timestamp read for
      its title. */
  ghost predicate LatestPerTitle(folder: Folder, r: seq<Summary>) {
    && (forall i, j :: 0 <= i < j < |r| ==> Less(r[i].title, r[j].title))
    && (forall i :: 0 <= i < |r| ==> Parses(folder, r[i].title, r[i].latestVersion))
    && (forall i, s :: 0 <= i < |r| && Parses(folder, r[i].title, s) ==> LessEq(s, r[i].latestVersion))
    && (forall t, s :: Parses(folder, t, s) ==> exists i :: 0 <= i < |r| && r[i].title == t)
  }

  /** `list_notes(project)`: one summary per title found in the project's
      folder, holding the greatest timestamp seen for it, sorted by
      title. */
  function ListNotes(b: Base, project: string): (r: Result<seq<Summary>>)
    ensures r.Err? <==> ProjectFolder(b, project).Err?
    ensures r.Ok? ==> LatestPerTitle(ProjectFolder(b, project).value, r.value)
  {
    match ProjectFolder(b, project)
    case Err(e) => Err(e)
    case Ok(folder) =>
      var latest := GroupLatest(TitleStamps(folder));
      var titles := Sort(Keys(latest));
      SortedKeysPresent(latest, titles);
      var r := seq(|titles|, i requires 0 <= i < |titles| => Summary(titles[i], Get(latest, titles[i]).stamp));
      SummariesLatest(folder, latest, titles, r);
      Ok(r)
  }

  lemma SortedKeysPresent<V>(d: Dict<string, V>, titles: seq<string>)
    requires titles == Sort(Keys(d))
    ensures forall i :: 0 <= i < |titles| ==> HasKey(d, titles[i])
  {
    forall i | 0 <= i < |titles| ensures HasKey(d, titles[i]) {
      assert titles[i] in multiset(Keys(d));
      var j :| 0 <= j < |Keys(d)| && Keys(d)[j] == titles[i];
      assert d[j].0 == titles[i];
    }
  }

  lemma SummariesLatest(folder: Folder, latest: Dict<string, Stamped<string, string>>, titles: seq<string>, r: seq<Summary>)
    requires latest == GroupLatest(TitleStamps(folder))
    requires titles == Sort(Keys(latest))
    requires forall i :: 0 <= i < |titles| ==> HasKey(latest, titles[i])
    requires |r| == |titles|
    requires forall i :: 0 <= i < |r| ==> r[i] == Summary(titles[i], Get(latest, titles[i]).stamp)
    ensures LatestPerTitle(folder, r)
  {
    forall x ensures multiset(titles)[x] <= 1 {
      KeysOnce(latest, x);
    }
    StrictlyAscending(titles);
    forall i | 0 <= i < |r| ensures Parses(folder, r[i].title, r[i].latestVersion) {
      KeptIsRead(folder, latest, titles[i]);
    }
    forall i, s | 0 <= i < |r| && Parses(folder, r[i].title, s) ensures LessEq(s, r[i].latestVersion) {
      KeptIsGreatest(folder, latest, titles[i], s);
    }
    forall t, s | Parses(folder, t, s) ensures exists i :: 0 <= i < |r| && r[i].title == t {
      var i := ReadIsKept(folder, latest, titles, t, s);
      assert r[i].title == t;
    }
  }

  lemma KeptIsRead(folder: Folder, latest: Dict<string, Stamped<string, string>>, t: string)
    requires latest == GroupLatest(TitleStamps(folder)) && HasKey(latest, t)
    ensures Parses(folder, t, Get(latest, t).stamp)
  {
    var items := TitleStamps(folder);
    var x := Get(latest, t);
    assert IsLatest(items, t, x);
    var k :| 0 <= k < |items| && items[k] == x && x.key == t;
    assert x in items;
  }

  lemma KeptIsGreatest(folder: Folder, latest: Dict<string, Stamped<string, string>>, t: string, s: string)
    requires latest == GroupLatest(TitleStamps(folder)) && HasKey(latest, t)
    requires Parses(folder, t, s)
    ensures LessEq(s, Get(latest, t).stamp)
  {
    var items := TitleStamps(folder);
    var k := StampIndex(folder, t, s);
    LatestBounds(items, t, k);
  }

  /** Where a parsed (title, timestamp) pair sits among the pairs read. */
  lemma StampIndex(folder: Folder, t: string, s: string) returns (k: int)
    requires Parses(folder, t, s)
    ensures 0 <= k < |TitleStamps(folder)| && TitleStamps(folder)[k] == Stamped(t, s, s)
  {
    var items := TitleStamps(folder);
    assert Stamped(t, s, s) in items;
    k :| 0 <= k < |items| && items[k] == Stamped(t, s, s);
  }

  lemma ReadIsKept(folder: Folder, latest: Dict<string, Stamped<string, string>>, titles: seq<string>, t: string, s: string)
      returns (i: int)
    requires latest == GroupLatest(TitleStamps(folder))
    requires titles == Sort(Keys(latest))
    requires Parses(folder, t, s)
    ensures 0 <= i < |titles| && titles[i] == t
  {
    var items := TitleStamps(folder);
    var k := StampIndex(folder, t, s);
    assert items[k].key == t;
    assert Occurs(items, t);
    var j :| 0 <= j < |latest| && latest[j].0 == t;
    assert Keys(latest)[j] == t;
    assert t in multiset(Keys(latest));
    i := IndexIn(titles, t);
  }

  /** A member of a sequence sits at some position. */
  lemma IndexIn(s: seq<string>, x: string) returns (i: int)
    requires x in multiset(s)
    ensures 0 <= i < |s| && s[i] == x
  {
    i :| 0 <= i < |s| && s[i] == x;
  }

  /** `n` is the record `get_all_notes` makes for file `file` of project
      directory `dir`. */
  predicate IsNoteOf(dir: string, file: string, n: NoteRef) {
    && ParseName(file) == Some((n.title, n.timestamp))
    && n.project == DisplayName(dir)
    && n.path == NotePath(dir, file)
  }

  /** Some file of `folder` yields record `n`. */
  ghost predicate FolderHas(dir: string, folder: Folder, n: NoteRef) {
    exists i :: 0 <= i < |folder| && IsNoteOf(dir, folder[i].0, n)
  }

  lemma FolderHasFirst(dir: string, folder: Folder, n: NoteRef)
    requires |folder| > 0
    ensures FolderHas(dir, folder, n) <==> IsNoteOf(dir, folder[0].0, n) || FolderHas(dir, folder[1..], n)
  {
    if FolderHas(dir, folder, n) {
      var i :| 0 <= i < |folder| && IsNoteOf(dir, folder[i].0, n);
      if i > 0 {
        assert folder[1..][i - 1] == folder[i];
      }
    }
    if FolderHas(dir, folder[1..], n) {
      var i :| 0 <= i < |folder[1..]| && IsNoteOf(dir, folder[1..][i].0, n);
      assert folder[i + 1] == folder[1..][i];
    }
  }

  /** The record one file contributes: none when its name does not
      parse. */
  function FileRecord(dir: string, file: string): seq<NoteRef> {
    match ParseName(file)
    case None => []
    case Some(p) => [NoteRef(DisplayName(dir), p.0, NotePath(dir, file), p.1)]
  }

  /** One file contributes no record when its name does not parse, and
      otherwise exactly its own record. */
  lemma FileRecordIs(dir: string, file: string)
    ensures FileRecord(dir, file) == [] <==> ParseName(file).None?
    ensures forall n :: FileRecord(dir, file) == [n] <==> IsNoteOf(dir, file, n)
    ensures forall n :: n in FileRecord(dir, file) <==> IsNoteOf(dir, file, n)
  {
    forall n | IsNoteOf(dir, file, n) ensures FileRecord(dir, file) == [n] {
      var p := ParseName(file).value;
      assert n == NoteRef(DisplayName(dir), p.0, NotePath(dir, file), p.1);
    }
  }

  /** The records of a folder's files, in listing order. */
  function FolderRecords(dir: string, folder: Folder): seq<NoteRef> {
    if |folder| == 0 then [] else FileRecord(dir, folder[0].0) + FolderRecords(dir, folder[1..])
  }

  lemma {:induction false} FolderRecordsMembers(dir: string, folder: Folder)
    ensures forall n :: n in FolderRecords(dir, folder) <==> FolderHas(dir, folder, n)
  {
    if |folder| > 0 {
      FolderRecordsMembers(dir, folder[1..]);
      FileRecordIs(dir, folder[0].0);
      forall n ensures n in FolderRecords(dir, folder) <==> FolderHas(dir, folder, n) {
        FolderHasFirst(dir, folder, n);
      }
    }
  }

  lemma {:induction false} FolderRecordsConcat(dir: string, f1: Folder, f2: Folder)
    ensures FolderRecords(dir, f1 + f2) == FolderRecords(dir, f1) + FolderRecords(dir, f2)
  {
    if |f1| == 0 {
      assert f1 + f2 == f2;
    } else {
      var f := f1 + f2;
      assert f[0] == f1[0];
      assert f[1..] == f1[1..] + f2;
      FolderRecordsConcat(dir, f1[1..], f2);
    }
  }

  /** The notes one project folder contributes to `get_all_notes`. */
  function FolderNotes(dir: string, folder: Folder): (r: seq<NoteRef>)
    ensures forall n :: n in r <==> FolderHas(dir, folder, n)
  {
    FolderRecordsMembers(dir, folder);
    FolderRecords(dir, folder)
  }

  /** Some project directory of `dirs` yields record `n`. */
  ghost predicate TreeHas(dirs: Dict<string, Folder>, n: NoteRef) {
    exists i :: 0 <= i < |dirs| && n in FolderNotes(dirs[i].0, dirs[i].1)
  }

  lemma TreeHasFirst(dirs: Dict<string, Folder>, n: NoteRef)
    requires |dirs| > 0
    ensures TreeHas(dirs, n) <==> n in FolderNotes(dirs[0].0, dirs[0].1) || TreeHas(dirs[1..], n)
  {
    if TreeHas(dirs, n) {
      var i :| 0 <= i < |dirs| && n in FolderNotes(dirs[i].0, dirs[i].1);
      if i > 0 {
        assert dirs[1..][i - 1] == dirs[i];
      }
    }
    if TreeHas(dirs[1..], n) {
      var i :| 0 <= i < |dirs[1..]| && n in FolderNotes(dirs[1..][i].0, dirs[1..][i].1);
      assert dirs[i + 1] == dirs[1..][i];
    }
  }

  /** The records of every project directory, directories in listing
      order. */
  function TreeRecords(dirs: Dict<string, Folder>): seq<NoteRef> {
    if |dirs| == 0 then [] else FolderNotes(dirs[0].0, dirs[0].1) + TreeRecords(dirs[1..])
  }

  lemma {:induction false} TreeRecordsMembers(dirs: Dict<string, Folder>)
    ensures forall n :: n in TreeRecords(dirs) <==> TreeHas(dirs, n)
  {
    if |dirs| > 0 {
      TreeRecordsMembers(dirs[1..]);
      forall n ensures n in TreeRecords(dirs) <==> TreeHas(dirs, n) {
        TreeHasFirst(dirs, n);
      }
    }
  }

  lemma {:induction false} TreeRecordsConcat(d1: Dict<string, Folder>, d2: Dict<string, Folder>)
    ensures TreeRecords(d1 + d2) == TreeRecords(d1) + TreeRecords(d2)
  {
    if |d1| == 0 {
      assert d1 + d2 == d2;
    } else {
      var d := d1 + d2;
      assert d[0] == d1[0];
      assert d[1..] == d1[1..] + d2;
      TreeRecordsConcat(d1[1..], d2);
    }
  }

  /** `get_all_notes()`: every parsable note file of every project
      directory, directories and files in listing order. Plain files of
      the base directory are not visited. */
  function GetAllNotes(b: Base): (r: seq<NoteRef>)
    ensures forall n :: n in r <==> TreeHas(b.dirs, n)
  {
    TreeRecordsMembers(b.dirs);
    TreeRecords(b.dirs)
  }

  /** The files of a folder contribute in listing order, each file its own
      record or none: together these fix the order and the multiplicity
      of `FolderNotes`. */
  lemma FolderNotesOne(dir: string, file: string, content: string)
    ensures FolderNotes(dir, [(file, content)]) == [] <==> ParseName(file).None?
    ensures forall n :: FolderNotes(dir, [(file, content)]) == [n] <==> IsNoteOf(dir, file, n)
  {
    FolderRecordsOne(dir, file, content);
    FileRecordIs(dir, file);
  }

  lemma FolderRecordsOne(dir: string, file: string, content: string)
    ensures FolderRecords(dir, [(file, content)]) == FileRecord(dir, file)
  {
    assert [(file, content)][1..] == [];
    assert FolderRecords(dir, [(file, content)]) == FileRecord(dir, file) + FolderRecords(dir, []);
  }

  lemma FolderNotesConcat(dir: string, f1: Folder, f2: Folder)
    ensures FolderNotes(dir, f1 + f2) == FolderNotes(dir, f1) + FolderNotes(dir, f2)
  {
    FolderRecordsConcat(dir, f1, f2);
  }

  /** Project directories contribute in listing order, one directory's
      records after another's; the base directory's own files contribute
      nothing. */
  lemma GetAllNotesOne(dir: string, folder: Folder, files: Folder)
    ensures GetAllNotes(Base([(dir, folder)], files)) == FolderNotes(dir, folder)
  {
    assert [(dir, folder)][1..] == [];
    assert TreeRecords([(dir, folder)]) == FolderNotes(dir, folder) + TreeRecords([]);
  }

  lemma GetAllNotesConcat(d1: Dict<string, Folder>, d2: Dict<string, Folder>, files: Folder)
    ensures GetAllNotes(Base(d1 + d2, files)) == GetAllNotes(Base(d1, files)) + GetAllNotes(Base(d2, files))
  {
    TreeRecordsConcat(d1, d2);
  }

  lemma GetAllNotesIgnoresFiles(dirs: Dict<string, Folder>, f1: Folder, f2: Folder)
    ensures GetAllNotes(Base(dirs, f1)) == GetAllNotes(Base(dirs, f2))
  {
  }

  /** No two records name the same file. */
  predicate DistinctPaths(s: seq<NoteRef>) {
    forall i, j :: 0 <= i < j < |s| ==> s[i].path != s[j].path
  }

  lemma DistinctPathsConcat(a: seq<NoteRef>, c: seq<NoteRef>)
    requires DistinctPaths(a) && DistinctPaths(c)
    requires forall x, y :: x in a && y in c ==> x.path != y.path
    ensures DistinctPaths(a + c)
  {
    var s := a + c;
    forall i, j | 0 <= i < j < |s| ensures s[i].path != s[j].path {
      if j < |a| {
        assert s[i] == a[i] && s[j] == a[j];
      } else if i >= |a| {
        assert s[i] == c[i - |a|] && s[j] == c[j - |a|];
      } else {
        assert s[i] == a[i] && s[j] == c[j - |a|];
      }
    }
  }

  /** The records of a folder lie in that folder and name its files. */
  lemma FolderNotesPaths(dir: string, folder: Folder, n: NoteRef)
    requires n in FolderNotes(dir, folder)
    ensures n.path.dir == dir && HasKey(folder, n.path.file)
  {
    var i :| 0 <= i < |folder| && IsNoteOf(dir, folder[i].0, n);
  }

  lemma TailDistinct<V>(d: Dict<string, V>)
    requires DistinctKeys(d) && |d| > 0
    ensures DistinctKeys(d[1..])
  {
    var t := d[1..];
    forall i, j | 0 <= i < j < |t| ensures t[i].0 != t[j].0 {
      assert t[i] == d[i + 1] && t[j] == d[j + 1];
    }
  }

  /** A folder with distinct file names yields each record once. */
  lemma {:induction false} FolderNotesDistinct(dir: string, folder: Folder)
    requires DistinctKeys(folder)
    ensures DistinctPaths(FolderNotes(dir, folder))
  {
    if |folder| > 0 {
      var t := folder[1..];
      TailDistinct(folder);
      FolderNotesDistinct(dir, t);
      TailLacksHead(folder);
      var head := FileRecord(dir, folder[0].0);
      FileRecordIs(dir, folder[0].0);
      forall x, y | x in head && y in FolderNotes(dir, t) ensures x.path != y.path {
        FolderNotesPaths(dir, t, y);
      }
      DistinctPathsConcat(head, FolderNotes(dir, t));
    }
  }

  /** The records of a tree lie in one of its project directories. */
  lemma GetAllNotesPaths(b: Base, n: NoteRef)
    requires n in GetAllNotes(b)
    ensures HasKey(b.dirs, n.path.dir)
  {
    var i :| 0 <= i < |b.dirs| && n in FolderNotes(b.dirs[i].0, b.dirs[i].1);
    FolderNotesPaths(b.dirs[i].0, b.dirs[i].1, n);
  }

  lemma {:induction false} TreeRecordsDistinct(dirs: Dict<string, Folder>)
    requires DistinctKeys(dirs)
    requires forall i :: 0 <= i < |dirs| ==> DistinctKeys(dirs[i].1)
    ensures DistinctPaths(TreeRecords(dirs))
  {
    if |dirs| > 0 {
      var t := dirs[1..];
      TailDistinct(dirs);
      forall i | 0 <= i < |t| ensures DistinctKeys(t[i].1) {
        assert t[i] == dirs[i + 1];
      }
      TreeRecordsDistinct(t);
      var here := FolderNotes(dirs[0].0, dirs[0].1);
      FolderNotesDistinct(dirs[0].0, dirs[0].1);
      TailLacksHead(dirs);
      forall x, y | x in here && y in TreeRecords(t) ensures x.path != y.path {
        FolderNotesPaths(dirs[0].0, dirs[0].1, x);
        GetAllNotesPaths(Base(t, []), y);
      }
      DistinctPathsConcat(here, TreeRecords(t));
    }
  }

  /** In a well-formed tree, `get_all_notes` reports every file once. */
  lemma GetAllNotesDistinct(b: Base)
    requires WellFormed(b)
    ensures DistinctPaths(GetAllNotes(b))
  {
    forall i | 0 <= i < |b.dirs| ensures DistinctKeys(b.dirs[i].1) {
      GetAt(b.dirs, i);
    }
    TreeRecordsDistinct(b.dirs);
  }

  /** In a well-formed tree, every path `get_all_notes` reports names a
      file that can be read. */
  lemma GetAllNotesReadable(b: Base, n: NoteRef)
    requires WellFormed(b) && n in GetAllNotes(b)
    ensures ReadFile(b, n.path).Ok?
  {
    var i :| 0 <= i < |b.dirs| && n in FolderNotes(b.dirs[i].0, b.dirs[i].1);
    var (dir, folder) := b.dirs[i];
    var j :| 0 <= j < |folder| && IsNoteOf(dir, folder[j].0, n);
    GetAt(b.dirs, i);
    assert HasKey(folder, folder[j].0);
  }

  // ------------------------------------------------- store, then retrieve

  /** The file name a store at `now` writes is one of the versions
      `retrieve_note` considers for the same title. */
  lemma FileNameIsCandidate(title: string, now: string)
    ensures MatchesVersionGlob(FileName(title, now), Sanitize(title))
  {
    var name := FileName(title, now);
    assert name == Sanitize(title) + "_" + VersionToken(now) + Extension;
  }

  /** A stored note is what `retrieve_note` returns next (its text as a
      text-mode read translates it), with the clock
      reading as its version, provided its file name sorts last among the
      title's versions (a later clock reading) and the clock reading holds
      no `_`: asking for no version, or for the clock reading, selects it. */
  lemma StoreThenRetrieve(b: Base, project: string, title: string, content: string, now: string, version: Option<string>)
    requires StoreNote(b, project, title, content, now).Ok?
    requires '_' !in now
    requires ProjectFolder(b, project).Ok?
    requires forall n :: n in VersionCandidates(ProjectFolder(b, project).value, Sanitize(title)) ==> LessEq(n, FileName(title, now))
    requires version == None || version == Some(now)
    ensures RetrieveNote(StoreNote(b, project, title, content, now).value.0, project, title, version)
      == Ok((UniversalNewlines(content), VersionOf(VersionToken(now))))
  {
    var (b', p) := StoreNote(b, project, title, content, now).value;
    var name := FileName(title, now);
    var safe := Sanitize(title);
    StoreNoteReadsBack(b, project, title, content, now);
    var folder' := ProjectFolder(b', project).value;
    assert HasKey(folder', name) && UniversalNewlines(Get(folder', name)) == UniversalNewlines(content);
    var cands := VersionCandidates(folder', safe);
    FileNameIsCandidate(title, now);
    assert name in cands;
    forall n | n in cands ensures LessEq(n, name) {
      if n != name {
        var q := NotePath(p.dir, n);
        StoreNoteFrame(b, project, title, content, now, q);
        assert ReadFile(b', q).Ok?;
        assert n in VersionCandidates(ProjectFolder(b, project).value, safe);
      }
    }
    var chosen := SelectVersion(cands, version);
    FileNameHasToken(title, now);
    assert chosen.value == name by {
      LessEqAntisymmetric(chosen.value, name);
    }
    FileNameRoundTrip(title, now);
    assert TimestampOf(name) == VersionOf(VersionToken(now));
  }

  /** Content without a carriage return comes back from `retrieve_note`
      exactly as stored. */
  lemma StoreThenRetrieveExact(b: Base, project: string, title: string, content: string, now: string, version: Option<string>)
    requires StoreNote(b, project, title, content, now).Ok?
    requires '_' !in now
    requires ProjectFolder(b, project).Ok?
    requires forall n :: n in VersionCandidates(ProjectFolder(b, project).value, Sanitize(title)) ==> LessEq(n, FileName(title, now))
    requires version == None || version == Some(now)
    requires '\r' !in content
    ensures RetrieveNote(StoreNote(b, project, title, content, now).value.0, project, title, version)
      == Ok((content, VersionOf(VersionToken(now))))
  {
    StoreThenRetrieve(b, project, title, content, now, version);
    UniversalNewlinesUnchanged(content);
  }

  /** Content holding a carriage return does not come back as stored:
      `store_note` writes it unchanged and the text-mode read in
      `retrieve_note` translates it (`a\r\nb` returns as `a\nb`, see
      `CrLfExample`). */
  lemma CarriageReturnsLost(b: Base, project: string, title: string, content: string, now: string, version: Option<string>)
    requires StoreNote(b, project, title, content, now).Ok?
    requires '_' !in now
    requires ProjectFolder(b, project).Ok?
    requires forall n :: n in VersionCandidates(ProjectFolder(b, project).value, Sanitize(title)) ==> LessEq(n, FileName(title, now))
    requires version == None || version == Some(now)
    requires '\r' in content
    ensures RetrieveNote(StoreNote(b, project, title, content, now).value.0, project, title, version).Ok?
    ensures RetrieveNote(StoreNote(b, project, title, content, now).value.0, project, title, version).value.0 != content
  {
    StoreThenRetrieve(b, project, title, content, now, version);
  }

  lemma CrLfExample()
    ensures UniversalNewlines("a\r\nb") == "a\nb"
  {
    var s := "a\r\nb";
    assert s[1..][2..] == "b";
    UniversalNewlinesUnchanged("b");
  }

  /** The timestamp `retrieve_note` reports for a file name without `:`
      leads back to that file: its version token occurs in the name. */
  lemma TimestampOccurs(name: string)
    requires ':' !in name
    ensures Contains(name, VersionToken(TimestampOf(name)))
  {
    var part := LastPart(Stem(name));
    var i := StampPartAt(name);
    assert ':' !in part by {
      forall k | 0 <= k < |part| ensures part[k] != ':' {
        assert part[k] == name[i..i + |part|][k] == name[i + k];
      }
    }
    VersionTokenOfVersion(part);
    assert OccursAt(name, part, i);
  }

  /** The text after the stem's last `_` sits inside the name. */
  lemma StampPartAt(name: string) returns (i: nat)
    ensures i + |LastPart(Stem(name))| <= |name|
    ensures name[i..i + |LastPart(Stem(name))|] == LastPart(Stem(name))
  {
    var stem := Stem(name);
    var part := LastPart(stem);
    StemIsPrefix(name);
    LastPartIsSuffix(stem);
    i := |stem| - |part|;
    assert name[i..i + |part|] == stem[i..];
  }

  /** Asking `retrieve_note` for the timestamp it just reported finds a
      note again, and, when the first call named no version, the very same
      note, provided the project's file names hold no `:` (as every name
      `store_note` writes). */
  lemma RetrieveReportedVersion(b: Base, project: string, title: string, version: Option<string>)
    requires RetrieveNote(b, project, title, version).Ok?
    requires forall n :: HasKey(ProjectFolder(b, project).value, n) ==> ':' !in n
    ensures RetrieveNote(b, project, title, Some(RetrieveNote(b, project, title, version).value.1)).Ok?
    ensures !Requested(version) ==>
      RetrieveNote(b, project, title, Some(RetrieveNote(b, project, title, version).value.1))
        == RetrieveNote(b, project, title, version)
  {
    var folder := ProjectFolder(b, project).value;
    var cands := VersionCandidates(folder, Sanitize(title));
    var name := SelectVersion(cands, version).value;
    var ts := TimestampOf(name);
    TimestampOccurs(name);
    var again := SelectVersion(cands, Some(ts));
    assert again.Some?;
    if !Requested(version) && Requested(Some(ts)) {
      LessEqAntisymmetric(again.value, name);
    }
  }

  // ------------------------------------------------------ worked examples

  /** The version pattern `A_*.md` also matches the versions of note
      `A B` (file `A_B_2.md`), and that file sorts after `A_1.md`: asking
      for the latest version of `A` returns the note `A B`, reported with
      timestamp `2`. */
  lemma PrefixTitleCollision(folder: Folder)
    requires folder == [("A_1.md", "one"), ("A_B_2.md", "two")]
    ensures RetrieveNote(Base([("p", folder)], []), "p", "A", None) == Ok(("two", "2"))
  {
    OneProject("p", folder);
    SanitizeKeepsSafe("A");
    CollisionSelect(folder);
    RetrieveSelected(Base([("p", folder)], []), "p", "A", None, folder, "A_B_2.md");
    SecondFile(folder);
    UniversalNewlinesUnchanged("two");
    CollisionStamp();
  }

  /** Once the folder and the file are chosen, `retrieve_note` returns
      that file's content and reported timestamp. */
  lemma RetrieveSelected(b: Base, project: string, title: string, version: Option<string>, folder: Folder, name: string)
    requires ProjectFolder(b, project) == Ok(folder)
    requires SelectVersion(VersionCandidates(folder, Sanitize(title)), version) == Some(name)
    ensures HasKey(folder, name)
    ensures RetrieveNote(b, project, title, version) == Ok((UniversalNewlines(Get(folder, name)), TimestampOf(name)))
  {
  }

  /** The content of the second file of a two-file folder. */
  lemma SecondFile(folder: Folder)
    requires |folder| == 2 && folder[0].0 != folder[1].0
    ensures HasKey(folder, folder[1].0) && Get(folder, folder[1].0) == folder[1].1
  {
    GetAt(folder, 1);
  }

  lemma CollisionSelect(folder: Folder)
    requires folder == [("A_1.md", "one"), ("A_B_2.md", "two")]
    ensures SelectVersion(VersionCandidates(folder, "A"), None) == Some("A_B_2.md")
  {
    var cands := VersionCandidates(folder, "A");
    CollisionCandidates(folder, cands);
    CollisionChoice(cands);
  }

  lemma CollisionStamp()
    ensures TimestampOf("A_B_2.md") == "2"
  {
    assert "A_B_2" == "A_B" + "_" + "2" && "A_B_2.md" == "A_B_2" + Extension;
    StampOfFile("A_B_2", "2");
  }

  lemma CollisionChoice(cands: seq<string>)
    requires "A_B_2.md" in cands
    requires forall n :: n in cands ==> n == "A_1.md" || n == "A_B_2.md"
    ensures SelectVersion(cands, None) == Some("A_B_2.md")
  {
    var chosen := SelectVersion(cands, None).value;
    if chosen != "A_B_2.md" {
      CollisionOrder();
    }
  }

  lemma CollisionOrder()
    ensures !LessEq("A_B_2.md", "A_1.md")
  {
    LessAt("A_1.md", "A_B_2.md", 2);
    LessAsymmetric("A_1.md", "A_B_2.md");
  }

  lemma CollisionCandidates(folder: Folder, cands: seq<string>)
    requires folder == [("A_1.md", "one"), ("A_B_2.md", "two")]
    requires cands == VersionCandidates(folder, "A")
    ensures "A_B_2.md" in cands
    ensures forall n :: n in cands ==> n == "A_1.md" || n == "A_B_2.md"
  {
    assert folder[1].0 == "A_B_2.md";
    assert MatchesVersionGlob("A_B_2.md", "A");
  }

  /** The project name of a one-project tree selects its folder. */
  lemma OneProject(p: string, folder: Folder)
    requires AllSafe(p) && p != ""
    ensures ProjectFolder(Base([(p, folder)], []), p) == Ok(folder)
  {
    SanitizeKeepsSafe(p);
    var b := Base([(p, folder)], []);
    assert b.dirs[0].0 == p;
    GetAt(b.dirs, 0);
  }

  /** The reported timestamp of `<stem>.md` when the stem holds `_` and
      its last part holds no `-`. */
  lemma StampOfFile(stem: string, part: string)
    requires '.' !in stem && |stem| > 0
    requires exists head :: stem == head + "_" + part
    requires '_' !in part && '-' !in part
    ensures TimestampOf(stem + Extension) == part
  {
    var head :| stem == head + "_" + part;
    LastIndexIs(stem + Extension, '.', |stem|);
    assert Stem(stem + Extension) == stem;
    forall j | |head| < j < |stem| ensures stem[j] != '_' {
      assert stem[j] == part[j - |head| - 1];
    }
    LastIndexIs(stem, '_', |head|);
    assert stem[|head| + 1..] == part;
  }

  /** A requested version is matched by substring: asking for version `1`
      of note `N` finds `N_15.md` first in descending order, and returns
      that version, reported as `15`. */
  lemma VersionSubstringMatch(folder: Folder)
    requires folder == [("N_1.md", "old"), ("N_15.md", "new")]
    ensures RetrieveNote(Base([("p", folder)], []), "p", "N", Some("1")) == Ok(("new", "15"))
  {
    OneProject("p", folder);
    SanitizeKeepsSafe("N");
    SubstringSelect(folder);
    RetrieveSelected(Base([("p", folder)], []), "p", "N", Some("1"), folder, "N_15.md");
    SecondFile(folder);
    UniversalNewlinesUnchanged("new");
    SubstringStamp();
  }

  lemma SubstringStamp()
    ensures TimestampOf("N_15.md") == "15"
  {
    assert "N_15" == "N" + "_" + "15" && "N_15.md" == "N_15" + Extension;
    StampOfFile("N_15", "15");
  }

  lemma SubstringSelect(folder: Folder)
    requires folder == [("N_1.md", "old"), ("N_15.md", "new")]
    ensures SelectVersion(VersionCandidates(folder, "N"), Some("1")) == Some("N_15.md")
  {
    var cands := VersionCandidates(folder, "N");
    assert folder[0].0 == "N_1.md" && folder[1].0 == "N_15.md";
    assert MatchesVersionGlob("N_15.md", "N");
    assert "N_15.md" in cands;
    SubstringChoice(cands);
  }

  lemma SubstringChoice(cands: seq<string>)
    requires "N_15.md" in cands
    requires forall n :: n in cands ==> n == "N_1.md" || n == "N_15.md"
    ensures SelectVersion(cands, Some("1")) == Some("N_15.md")
  {
    SubstringToken();
    var chosen := SelectVersion(cands, Some("1")).value;
    if chosen != "N_15.md" {
      SubstringOrder();
    }
  }

  lemma SubstringToken()
    ensures Contains("N_15.md", VersionToken("1"))
  {
    assert VersionToken("1") == "1";
    assert OccursAt("N_15.md", "1", 2);
  }

  lemma SubstringOrder()
    ensures !LessEq("N_15.md", "N_1.md")
  {
    LessAt("N_1.md", "N_15.md", 3);
    LessAsymmetric("N_1.md", "N_15.md");
  }
}
