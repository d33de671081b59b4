/** The on-disk state the note store reads and writes, as a value: the base
    data directory maps project directory names to folders, and a folder
    maps file names to contents. Both are insertion-ordered dictionaries,
    so the order in which the operating system lists entries (`iterdir`,
    `glob`) is explicit: it is the order the store and the searcher walk
    them in. */
module FileSystem {
  import opened Results
  import opened Dict

  /** A directory's files: file name to content, in listing order. */
  type Folder = Dict<string, string>

  /** The base data directory: its project sub-directories and its own
      plain files. */
  datatype Base = Base(dirs: Dict<string, Folder>, files: Folder)

  /** Where a note version lives: a sub-directory of the base and a file
      name. The empty directory name denotes the base directory itself,
      because `base_dir / ""` is `base_dir`. */
  datatype NotePath = NotePath(dir: string, file: string)

  /** What a real directory tree guarantees: names are unique within a
      directory (sub-directories and plain files share one namespace), and
      a sub-directory has a non-empty name. */
  ghost predicate WellFormed(b: Base) {
    && DistinctKeys(b.dirs)
    && DistinctKeys(b.files)
    && (forall d :: HasKey(b.dirs, d) ==> d != "" && !HasKey(b.files, d) && DistinctKeys(Get(b.dirs, d)))
  }

  /** The folder a directory name denotes: the base's own files for the
      empty name, otherwise the sub-directory of that name, if any. */
  function FolderAt(b: Base, dir: string): Option<Folder> {
    if dir == "" then Some(b.files)
    else if HasKey(b.dirs, dir) then Some(Get(b.dirs, dir))
    else None
  }

  /** What a read in text mode with the default `newline=None` returns
      for a file holding `s`: every `\r\n` pair and every lone `\r`
      reads as one `\n`. Writing in text mode on a POSIX system stores the
      characters as given. */
  function UniversalNewlines(s: string): (r: string)
    ensures '\r' !in r
    ensures |r| <= |s|
  {
    if |s| == 0 then []
    else if s[0] == '\r' then
      "\n" + UniversalNewlines(if |s| > 1 && s[1] == '\n' then s[2..] else s[1..])
    else [s[0]] + UniversalNewlines(s[1..])
  }

  /** Text without a carriage return reads back unchanged, and only such
      text does. */
  lemma {:induction false} UniversalNewlinesUnchanged(s: string)
    ensures UniversalNewlines(s) == s <==> '\r' !in s
  {
    if |s| > 0 && s[0] != '\r' {
      UniversalNewlinesUnchanged(s[1..]);
      assert s == [s[0]] + s[1..];
    }
  }

  /** Reading back what was read changes nothing more. */
  lemma UniversalNewlinesIdempotent(s: string)
    ensures UniversalNewlines(UniversalNewlines(s)) == UniversalNewlines(s)
  {
    UniversalNewlinesUnchanged(UniversalNewlines(s));
  }

  /** How many characters the first line ending or character of `s`
      takes up: two for a `\r\n` pair, one otherwise. */
  function LeadLength(s: string): (r: nat)
    requires |s| > 0
    ensures 1 <= r <= |s|
  {
    if s[0] == '\r' && |s| > 1 && s[1] == '\n' then 2 else 1
  }

  /** The translation of `s` is that of its leading character or pair
      followed by that of the rest. */
  lemma UniversalNewlinesLead(s: string)
    requires |s| > 0
    ensures UniversalNewlines(s) == UniversalNewlines(s[..LeadLength(s)]) + UniversalNewlines(s[LeadLength(s)..])
  {
    var k := LeadLength(s);
    var h := s[..k];
    if k == 2 {
      assert h[1..] == ['\n'] && h[2..] == [];
    } else {
      assert h[1..] == [];
    }
  }

  /** Text splits at any point that does not cut a `\r\n` pair: each part
      reads on its own. */
  lemma {:induction false} UniversalNewlinesConcat(a: string, c: string)
    requires |a| == 0 || a[|a| - 1] != '\r'
    ensures UniversalNewlines(a + c) == UniversalNewlines(a) + UniversalNewlines(c)
  {
    if |a| == 0 {
      assert a + c == c;
    } else {
      var ac := a + c;
      var k := LeadLength(a);
      assert LeadLength(ac) == k;
      assert ac[..k] == a[..k];
      assert ac[k..] == a[k..] + c;
      UniversalNewlinesLead(a);
      UniversalNewlinesLead(ac);
      UniversalNewlinesConcat(a[k..], c);
    }
  }

  /** Opening a file for reading in text mode: `FileNotFoundError` when the
      path names nothing, otherwise the file's content with its line
      endings translated. */
  function ReadFile(b: Base, p: NotePath): (r: Result<string>)
    ensures r.Ok? <==> FolderAt(b, p.dir).Some? && HasKey(FolderAt(b, p.dir).value, p.file)
    ensures r.Ok? ==> r.value == UniversalNewlines(Get(FolderAt(b, p.dir).value, p.file))
  {
    match FolderAt(b, p.dir)
    case None => Err(NotFound)
    case Some(folder) =>
      if HasKey(folder, p.file) then Ok(UniversalNewlines(Get(folder, p.file))) else Err(NotFound)
  }
}
