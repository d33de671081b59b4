/** `NotesSearcher`: an in-memory index of the latest version of every note,
    rebuilt from the note store, and a fuzzy search over it. The fuzzy
    scorer (`fuzz.partial_ratio`) is a parameter: nothing here depends on
    how it scores, only on how its scores are combined, filtered and
    ordered. */
module Searcher {
  import opened Results
  import opened Strings
  import opened Dict
  import opened Grouping
  import opened FileSystem
  import opened Storage
  import StringSort

  /** What the index keeps for one note. */
  datatype IndexEntry = IndexEntry(content: string, timestamp: string, path: NotePath)

  /** `self.index`: project display name to note title to entry, both
      levels in insertion order. */
  type Index = Dict<string, Dict<string, IndexEntry>>

  /** The `SearchResult` dataclass. */
  datatype SearchResult = SearchResult(project: string, title: string, content: string, score: real, excerpt: string)

  ghost predicate IndexWellFormed(idx: Index) {
    DistinctKeys(idx) && forall p :: HasKey(idx, p) ==> DistinctKeys(Get(idx, p))
  }

  /** `project in self.index and title in self.index[project]`. */
  predicate InIndex(idx: Index, p: string, t: string) {
    HasKey(idx, p) && HasKey(Get(idx, p), t)
  }

  function EntryAt(idx: Index, p: string, t: string): IndexEntry
    requires InIndex(idx, p, t)
  {
    Get(Get(idx, p), t)
  }

  /** `self.index[project][title] = entry`, creating the project's table
      first when it is missing. */
  function AddToIndex(idx: Index, p: string, t: string, e: IndexEntry): (r: Index)
    ensures InIndex(r, p, t) && EntryAt(r, p, t) == e
  {
    var table := if HasKey(idx, p) then Get(idx, p) else [];
    Put(idx, p, Put(table, t, e))
  }

  /** Entering one note leaves every other pair's presence and entry as it
      was. */
  lemma AddToIndexOther(idx: Index, p: string, t: string, e: IndexEntry, p': string, t': string)
    requires !(p' == p && t' == t)
    ensures InIndex(AddToIndex(idx, p, t, e), p', t') <==> InIndex(idx, p', t')
    ensures InIndex(idx, p', t') ==> EntryAt(AddToIndex(idx, p, t, e), p', t') == EntryAt(idx, p', t')
  {
  }

  /** Entering a note keeps both levels of the index free of repeated
      keys. */
  lemma AddToIndexWellFormed(idx: Index, p: string, t: string, e: IndexEntry)
    requires IndexWellFormed(idx)
    ensures IndexWellFormed(AddToIndex(idx, p, t, e))
  {
  }

  // ------------------------------------------------------------ rebuilding

  /** The (project, title) pair a note is indexed under. */
  function PairOf(n: NoteRef): (string, string) {
    (n.project, n.title)
  }

  predicate PairsDistinct(notes: seq<NoteRef>) {
    forall i, j :: 0 <= i < j < |notes| ==> PairOf(notes[i]) != PairOf(notes[j])
  }

  /** The distinct (project, title) pairs among some notes. */
  ghost function PairSet(notes: seq<NoteRef>): set<(string, string)> {
    set i | 0 <= i < |notes| :: PairOf(notes[i])
  }

  /** The loop's view of `get_all_notes()`: each note keyed by its pair and
      compared by its timestamp. */
  function Stamps(notes: seq<NoteRef>): (r: seq<Stamped<(string, string), NoteRef>>)
    ensures |r| == |notes|
    ensures forall i :: 0 <= i < |notes| ==> r[i] == Stamped(PairOf(notes[i]), notes[i].timestamp, notes[i])
  {
    seq(|notes|, i requires 0 <= i < |notes| => Stamped(PairOf(notes[i]), notes[i].timestamp, notes[i]))
  }

  /** Note `n` is the one `latest_notes` keeps for its pair: it is one of
      `notes`, no note of the same pair has a greater timestamp, and every
      note of the same pair listed before it has a strictly smaller one. */
  ghost predicate LatestOf(notes: seq<NoteRef>, n: NoteRef) {
    exists k :: 0 <= k < |notes| && notes[k] == n
      && (forall m :: 0 <= m < |notes| && PairOf(notes[m]) == PairOf(n) ==> LessEq(notes[m].timestamp, n.timestamp))
      && (forall m :: 0 <= m < k && PairOf(notes[m]) == PairOf(n) ==> Less(notes[m].timestamp, n.timestamp))
  }

  /** `latest_notes.values()` after the grouping loop, in dictionary
      order. */
  function LatestNotes(notes: seq<NoteRef>): (r: seq<NoteRef>)
    ensures |r| == |GroupLatest(Stamps(notes))|
  {
    var latest := GroupLatest(Stamps(notes));
    seq(|latest|, j requires 0 <= j < |latest| => latest[j].1.value)
  }

  /** The kept notes have pairwise different pairs. */
  lemma LatestNotesDistinct(notes: seq<NoteRef>)
    ensures PairsDistinct(LatestNotes(notes))
  {
    var latest := GroupLatest(Stamps(notes));
    var r := LatestNotes(notes);
    forall i, j | 0 <= i < j < |r| ensures PairOf(r[i]) != PairOf(r[j]) {
      KeptNote(notes, latest, i);
      KeptNote(notes, latest, j);
    }
  }

  /** Each kept note is the latest of its pair. */
  lemma LatestNotesAreLatest(notes: seq<NoteRef>, j: int)
    requires 0 <= j < |LatestNotes(notes)|
    ensures LatestOf(notes, LatestNotes(notes)[j])
  {
    KeptNote(notes, GroupLatest(Stamps(notes)), j);
  }

  /** Every pair among the notes has a kept note. */
  lemma LatestNotesCover(notes: seq<NoteRef>, i: int) returns (j: int)
    requires 0 <= i < |notes|
    ensures 0 <= j < |LatestNotes(notes)| && PairOf(LatestNotes(notes)[j]) == PairOf(notes[i])
  {
    var items := Stamps(notes);
    var latest := GroupLatest(items);
    assert items[i].key == PairOf(notes[i]);
    assert Occurs(items, PairOf(notes[i]));
    j :| 0 <= j < |latest| && latest[j].0 == PairOf(notes[i]);
    KeptNote(notes, latest, j);
  }

  /** There are as many kept notes as distinct pairs. */
  lemma LatestNotesCount(notes: seq<NoteRef>)
    ensures |LatestNotes(notes)| == |PairSet(notes)|
  {
    StampsKeys(notes);
    GroupLatestCount(Stamps(notes));
  }

  /** The note kept at position `j` of the grouping result carries the
      pair it is kept under and is the latest of that pair. */
  lemma KeptNote(notes: seq<NoteRef>, latest: Dict<(string, string), Stamped<(string, string), NoteRef>>, j: int)
    requires latest == GroupLatest(Stamps(notes))
    requires 0 <= j < |latest|
    ensures PairOf(latest[j].1.value) == latest[j].0
    ensures LatestOf(notes, latest[j].1.value)
  {
    var items := Stamps(notes);
    var key := latest[j].0;
    GetAt(latest, j);
    var x := latest[j].1;
    var k := LatestIndex(items, key, x);
    assert notes[k] == x.value;
    assert PairOf(x.value) == key;
    forall m | 0 <= m < |notes| && PairOf(notes[m]) == key ensures LessEq(notes[m].timestamp, x.value.timestamp) {
      assert items[m].key == key;
    }
    forall m | 0 <= m < k && PairOf(notes[m]) == key ensures Less(notes[m].timestamp, x.value.timestamp) {
      assert items[m].key == key;
    }
  }

  /** What the index holds for note `n`: the content read from its path,
      its timestamp and its path. */
  function EntryOf(b: Base, n: NoteRef): IndexEntry
    requires ReadFile(b, n.path).Ok?
  {
    IndexEntry(ReadFile(b, n.path).value, n.timestamp, n.path)
  }

  /** The indexing loop over the kept notes, in order: read each note's
      file and enter it under its pair. A failed read ends the loop with
      `FileNotFoundError`. */
  function BuildIndex(b: Base, notes: seq<NoteRef>): (r: Result<Index>)
    ensures r.Err? ==> r.error == NotFound
  {
    if |notes| == 0 then Ok([])
    else
      var n := |notes| - 1;
      var prefix := notes[..n];
      assert forall i :: 0 <= i < n ==> prefix[i] == notes[i];
      match BuildIndex(b, prefix)
      case Err(e) => Err(e)
      case Ok(idx) =>
        match ReadFile(b, notes[n].path)
        case Err(e) => Err(e)
        case Ok(content) => Ok(AddToIndex(idx, notes[n].project, notes[n].title, IndexEntry(content, notes[n].timestamp, notes[n].path)))
  }

  /** A successful loop is the loop over all but the last note followed by
      entering the last one. */
  lemma BuildIndexLast(b: Base, notes: seq<NoteRef>)
    requires |notes| > 0 && BuildIndex(b, notes).Ok?
    ensures BuildIndex(b, notes[..|notes| - 1]).Ok?
    ensures ReadFile(b, notes[|notes| - 1].path).Ok?
    ensures var n := notes[|notes| - 1];
      BuildIndex(b, notes).value == AddToIndex(BuildIndex(b, notes[..|notes| - 1]).value, n.project, n.title, EntryOf(b, n))
  {
  }

  /** The loop builds a well-formed index. */
  lemma {:induction false} BuildIndexWellFormed(b: Base, notes: seq<NoteRef>)
    requires BuildIndex(b, notes).Ok?
    ensures IndexWellFormed(BuildIndex(b, notes).value)
  {
    if |notes| > 0 {
      var n := notes[|notes| - 1];
      BuildIndexLast(b, notes);
      BuildIndexWellFormed(b, notes[..|notes| - 1]);
      AddToIndexWellFormed(BuildIndex(b, notes[..|notes| - 1]).value, n.project, n.title, EntryOf(b, n));
    }
  }

  /** Some note of `notes` has pair `(p, t)`. */
  ghost predicate HasPair(notes: seq<NoteRef>, p: string, t: string) {
    exists i :: 0 <= i < |notes| && PairOf(notes[i]) == (p, t)
  }

  lemma HasPairLast(notes: seq<NoteRef>, p: string, t: string)
    requires |notes| > 0
    ensures HasPair(notes, p, t) <==> HasPair(notes[..|notes| - 1], p, t) || PairOf(notes[|notes| - 1]) == (p, t)
  {
    var prefix := notes[..|notes| - 1];
    if HasPair(notes, p, t) {
      var i :| 0 <= i < |notes| && PairOf(notes[i]) == (p, t);
      if i < |prefix| {
        assert PairOf(prefix[i]) == (p, t);
      }
    }
    if HasPair(prefix, p, t) {
      var i :| 0 <= i < |prefix| && PairOf(prefix[i]) == (p, t);
      assert PairOf(notes[i]) == (p, t);
    }
  }

  /** Every note's file can be read. */
  ghost predicate AllReadable(b: Base, notes: seq<NoteRef>) {
    forall i :: 0 <= i < |notes| ==> ReadFile(b, notes[i].path).Ok?
  }

  lemma AllReadableLast(b: Base, notes: seq<NoteRef>)
    requires |notes| > 0
    ensures AllReadable(b, notes) <==> AllReadable(b, notes[..|notes| - 1]) && ReadFile(b, notes[|notes| - 1].path).Ok?
  {
    var prefix := notes[..|notes| - 1];
    assert forall i :: 0 <= i < |prefix| ==> prefix[i] == notes[i];
  }

  /** The loop succeeds exactly when every note's file can be read. */
  lemma {:induction false} BuildIndexSucceeds(b: Base, notes: seq<NoteRef>)
    ensures BuildIndex(b, notes).Ok? <==> AllReadable(b, notes)
  {
    if |notes| > 0 {
      var prefix := notes[..|notes| - 1];
      BuildIndexSucceeds(b, prefix);
      AllReadableLast(b, notes);
      assert BuildIndex(b, notes).Ok? <==> BuildIndex(b, prefix).Ok? && ReadFile(b, notes[|notes| - 1].path).Ok?;
    }
  }

  /** The index holds exactly the pairs of the notes entered. */
  lemma {:induction false} BuildIndexPairs(b: Base, notes: seq<NoteRef>, p: string, t: string)
    requires BuildIndex(b, notes).Ok?
    ensures InIndex(BuildIndex(b, notes).value, p, t) <==> HasPair(notes, p, t)
  {
    if |notes| > 0 {
      var prefix := notes[..|notes| - 1];
      BuildIndexLast(b, notes);
      BuildIndexPairs(b, prefix, p, t);
      HasPairLast(notes, p, t);
      var n := notes[|notes| - 1];
      if !(n.project == p && n.title == t) {
        AddToIndexOther(BuildIndex(b, prefix).value, n.project, n.title, EntryOf(b, n), p, t);
      }
    }
  }

  /** With one note per pair, each pair's entry is read from that note. */
  lemma {:induction false} BuildIndexEntry(b: Base, notes: seq<NoteRef>, i: int)
    requires BuildIndex(b, notes).Ok? && PairsDistinct(notes) && 0 <= i < |notes|
    ensures ReadFile(b, notes[i].path).Ok?
    ensures InIndex(BuildIndex(b, notes).value, notes[i].project, notes[i].title)
    ensures EntryAt(BuildIndex(b, notes).value, notes[i].project, notes[i].title) == EntryOf(b, notes[i])
  {
    BuildIndexSucceeds(b, notes);
    var last := |notes| - 1;
    var n := notes[last];
    BuildIndexLast(b, notes);
    if i < last {
      var prefix := notes[..last];
      var m := notes[i];
      assert prefix[i] == m;
      PairsDistinctPrefix(notes);
      BuildIndexEntry(b, prefix, i);
      AddToIndexOther(BuildIndex(b, prefix).value, n.project, n.title, EntryOf(b, n), m.project, m.title);
    }
  }

  lemma PairsDistinctPrefix(notes: seq<NoteRef>)
    requires PairsDistinct(notes) && |notes| > 0
    ensures PairsDistinct(notes[..|notes| - 1])
  {
    var prefix := notes[..|notes| - 1];
    forall j, k | 0 <= j < k < |prefix| ensures PairOf(prefix[j]) != PairOf(prefix[k]) {
      assert prefix[j] == notes[j] && prefix[k] == notes[k];
    }
  }

  /** `rebuild_index()`: the new index and the number of notes indexed. */
  function RebuildIndex(b: Base): (r: Result<(Index, nat)>)
    ensures r.Err? ==> r.error == NotFound
  {
    var kept := LatestNotes(GetAllNotes(b));
    match BuildIndex(b, kept)
    case Err(e) => Err(e)
    case Ok(idx) => Ok((idx, |kept|))
  }

  /** In a well-formed tree every kept note can be read, so the rebuild
      succeeds. */
  lemma RebuildIndexSucceeds(b: Base)
    requires WellFormed(b)
    ensures RebuildIndex(b).Ok?
  {
    var notes := GetAllNotes(b);
    var kept := LatestNotes(notes);
    forall i | 0 <= i < |kept| ensures ReadFile(b, kept[i].path).Ok? {
      LatestNotesAreLatest(notes, i);
      var k :| 0 <= k < |notes| && notes[k] == kept[i];
      GetAllNotesReadable(b, kept[i]);
    }
    BuildIndexSucceeds(b, kept);
  }

  /** The rebuilt index is free of repeated keys at both levels. */
  lemma RebuildIndexWellFormed(b: Base)
    requires RebuildIndex(b).Ok?
    ensures IndexWellFormed(RebuildIndex(b).value.0)
  {
    BuildIndexWellFormed(b, LatestNotes(GetAllNotes(b)));
  }

  lemma StampsKeys(notes: seq<NoteRef>)
    ensures StampedKeys(Stamps(notes)) == PairSet(notes)
  {
    var items := Stamps(notes);
    forall k | k in PairSet(notes) ensures k in StampedKeys(items) {
      var i :| 0 <= i < |notes| && PairOf(notes[i]) == k;
      assert items[i].key == k;
    }
    forall k | k in StampedKeys(items) ensures k in PairSet(notes) {
      var i :| 0 <= i < |items| && items[i].key == k;
      assert PairOf(notes[i]) == k;
    }
  }

  /** The count returned is the number of distinct (project, title) pairs
      among all notes. */
  lemma RebuildIndexCount(b: Base)
    requires RebuildIndex(b).Ok?
    ensures RebuildIndex(b).value.1 == |PairSet(GetAllNotes(b))|
  {
    var kept := LatestNotes(GetAllNotes(b));
    assert RebuildIndex(b).value.1 == |kept|;
    LatestNotesCount(GetAllNotes(b));
  }

  /** A pair is in the rebuilt index exactly when some note has it. */
  lemma RebuildIndexPairs(b: Base, p: string, t: string)
    requires RebuildIndex(b).Ok?
    ensures InIndex(RebuildIndex(b).value.0, p, t) <==> HasPair(GetAllNotes(b), p, t)
  {
    var notes := GetAllNotes(b);
    var kept := LatestNotes(notes);
    assert RebuildIndex(b).value.0 == BuildIndex(b, kept).value;
    BuildIndexPairs(b, kept, p, t);
    if HasPair(notes, p, t) {
      var i :| 0 <= i < |notes| && PairOf(notes[i]) == (p, t);
      var j := LatestNotesCover(notes, i);
      assert PairOf(kept[j]) == (p, t);
    }
    if HasPair(kept, p, t) {
      var j :| 0 <= j < |kept| && PairOf(kept[j]) == (p, t);
      LatestNotesAreLatest(notes, j);
      var k :| 0 <= k < |notes| && notes[k] == kept[j];
      assert PairOf(notes[k]) == (p, t);
    }
  }

  /** Each index entry is the content, timestamp and path of the latest
      note of its pair. */
  lemma RebuildIndexLatest(b: Base, p: string, t: string)
    requires RebuildIndex(b).Ok?
    requires InIndex(RebuildIndex(b).value.0, p, t)
    ensures exists n :: (PairOf(n) == (p, t) && LatestOf(GetAllNotes(b), n) && ReadFile(b, n.path).Ok?
      && EntryAt(RebuildIndex(b).value.0, p, t) == EntryOf(b, n))
  {
    var notes := GetAllNotes(b);
    var kept := LatestNotes(notes);
    BuildIndexPairs(b, kept, p, t);
    assert RebuildIndex(b).value.0 == BuildIndex(b, kept).value;
    var j :| 0 <= j < |kept| && PairOf(kept[j]) == (p, t);
    LatestNotesDistinct(notes);
    BuildIndexEntry(b, kept, j);
    LatestNotesAreLatest(notes, j);
  }

  // ---------------------------------------------------------- index order

  /** The notes' projects, in listing order. */
  function Projects(notes: seq<NoteRef>): (r: seq<string>)
    ensures |r| == |notes|
    ensures forall i :: 0 <= i < |notes| ==> r[i] == notes[i].project
  {
    seq(|notes|, i requires 0 <= i < |notes| => notes[i].project)
  }

  /** The notes' (project, title) pairs, in listing order. */
  function Pairs(notes: seq<NoteRef>): (r: seq<(string, string)>)
    ensures |r| == |notes|
    ensures forall i :: 0 <= i < |notes| ==> r[i] == PairOf(notes[i])
  {
    seq(|notes|, i requires 0 <= i < |notes| => PairOf(notes[i]))
  }

  /** Titles of project `p`, each paired with `p`. */
  function Tagged(p: string, titles: seq<string>): (r: seq<(string, string)>)
    ensures |r| == |titles|
    ensures forall i :: 0 <= i < |titles| ==> r[i] == (p, titles[i])
  {
    seq(|titles|, i requires 0 <= i < |titles| => (p, titles[i]))
  }

  /** The index lists its projects in the order of each project's first
      note in `notes`, and each project's titles in the order of each
      title's first note in that project. */
  ghost predicate IndexInNoteOrder(idx: Index, notes: seq<NoteRef>) {
    && FirstOccurrenceOrder(Keys(idx), Projects(notes))
    && forall p :: HasKey(idx, p) ==> FirstOccurrenceOrder(Tagged(p, Keys(Get(idx, p))), Pairs(notes))
  }

  lemma HasPairIn(notes: seq<NoteRef>, p: string, t: string)
    ensures HasPair(notes, p, t) <==> (p, t) in Pairs(notes)
  {
    if (p, t) in Pairs(notes) {
      var i := FirstPos(Pairs(notes), (p, t));
      assert PairOf(notes[i]) == (p, t);
    }
  }

  /** `latest_notes` lists the kept notes in the order of their pair's
      first note. */
  lemma LatestNotesOrder(notes: seq<NoteRef>)
    ensures FirstOccurrenceOrder(Pairs(LatestNotes(notes)), Pairs(notes))
  {
    GroupLatestOrder(Stamps(notes));
    StampsKeyList(notes);
    LatestPairs(notes);
  }

  lemma StampsKeyList(notes: seq<NoteRef>)
    ensures KeyList(Stamps(notes)) == Pairs(notes)
  {
  }

  /** The kept notes' pairs are the grouping's keys. */
  lemma LatestPairs(notes: seq<NoteRef>)
    ensures Pairs(LatestNotes(notes)) == Keys(GroupLatest(Stamps(notes)))
  {
    var latest := GroupLatest(Stamps(notes));
    forall j | 0 <= j < |latest| ensures Pairs(LatestNotes(notes))[j] == Keys(latest)[j] {
      KeptNote(notes, latest, j);
    }
  }

  /** A project has a table in the index exactly when some note entered
      belongs to it. */
  lemma {:induction false} BuildIndexProjects(b: Base, notes: seq<NoteRef>, p: string)
    requires BuildIndex(b, notes).Ok?
    ensures HasKey(BuildIndex(b, notes).value, p) <==> p in Projects(notes)
  {
    if |notes| > 0 {
      var prefix := notes[..|notes| - 1];
      var n := notes[|notes| - 1];
      BuildIndexLast(b, notes);
      BuildIndexProjects(b, prefix, p);
      AddToIndexHasKey(BuildIndex(b, prefix).value, n.project, n.title, EntryOf(b, n), p);
      ProjectsLast(notes);
    }
  }

  lemma ProjectsLast(notes: seq<NoteRef>)
    requires |notes| > 0
    ensures Projects(notes) == Projects(notes[..|notes| - 1]) + [notes[|notes| - 1].project]
  {
  }

  lemma AddToIndexHasKey(idx: Index, p: string, t: string, e: IndexEntry, q: string)
    ensures HasKey(AddToIndex(idx, p, t, e), q) <==> q == p || HasKey(idx, q)
  {
  }

  /** Entering one more note keeps the project order. */
  lemma AddToIndexProjectOrder(idx: Index, notes: seq<NoteRef>, n: NoteRef, e: IndexEntry)
    requires FirstOccurrenceOrder(Keys(idx), Projects(notes))
    requires forall p :: HasKey(idx, p) <==> p in Projects(notes)
    ensures FirstOccurrenceOrder(Keys(AddToIndex(idx, n.project, n.title, e)), Projects(notes + [n]))
  {
    assert Projects(notes + [n]) == Projects(notes) + [n.project];
    forall i | 0 <= i < |Keys(idx)| ensures Keys(idx)[i] in Projects(notes) {
      assert HasKey(idx, idx[i].0);
    }
    FirstOccurrenceOrderAppend(Keys(idx), Projects(notes), n.project);
    AddToIndexKeys(idx, n.project, n.title, e);
  }

  /** Entering a note keeps the project order and the order of the
      note's project's table; a new project or title goes last. */
  lemma AddToIndexKeys(idx: Index, p: string, t: string, e: IndexEntry)
    ensures Keys(AddToIndex(idx, p, t, e)) == if HasKey(idx, p) then Keys(idx) else Keys(idx) + [p]
    ensures var table := if HasKey(idx, p) then Get(idx, p) else [];
      Keys(Get(AddToIndex(idx, p, t, e), p)) == if HasKey(table, t) then Keys(table) else Keys(table) + [t]
  {
    var table := if HasKey(idx, p) then Get(idx, p) else [];
    PutKeys(idx, p, Put(table, t, e));
    PutKeys(table, t, e);
  }

  /** Entering one more note keeps the title order of every table. */
  lemma AddToIndexTitleOrder(idx: Index, notes: seq<NoteRef>, n: NoteRef, e: IndexEntry, q: string)
    requires forall p :: HasKey(idx, p) ==> FirstOccurrenceOrder(Tagged(p, Keys(Get(idx, p))), Pairs(notes))
    requires forall p, t :: InIndex(idx, p, t) <==> (p, t) in Pairs(notes)
    requires HasKey(AddToIndex(idx, n.project, n.title, e), q)
    ensures FirstOccurrenceOrder(Tagged(q, Keys(Get(AddToIndex(idx, n.project, n.title, e), q))), Pairs(notes + [n]))
  {
    assert Pairs(notes + [n]) == Pairs(notes) + [PairOf(n)];
    TableOrderAppend(idx, notes, q, PairOf(n));
    if q != n.project {
      AddToIndexOtherTable(idx, n.project, n.title, e, q);
    } else {
      NewTitleIsNewPair(idx, notes, n);
      AddToIndexKeys(idx, n.project, n.title, e);
    }
  }

  /** Entering a note leaves the other projects' tables as they were. */
  lemma AddToIndexOtherTable(idx: Index, p: string, t: string, e: IndexEntry, q: string)
    requires q != p && HasKey(AddToIndex(idx, p, t, e), q)
    ensures HasKey(idx, q) && Get(AddToIndex(idx, p, t, e), q) == Get(idx, q)
  {
  }

  /** A title missing from its project's table is a pair not yet listed. */
  lemma NewTitleIsNewPair(idx: Index, notes: seq<NoteRef>, n: NoteRef)
    requires forall p, t :: InIndex(idx, p, t) <==> (p, t) in Pairs(notes)
    ensures var table := if HasKey(idx, n.project) then Get(idx, n.project) else [];
      && (!HasKey(table, n.title) ==> PairOf(n) !in Pairs(notes))
      && Tagged(n.project, Keys(table) + [n.title]) == Tagged(n.project, Keys(table)) + [PairOf(n)]
  {
    var table := if HasKey(idx, n.project) then Get(idx, n.project) else [];
    if !HasKey(table, n.title) {
      assert !InIndex(idx, n.project, n.title);
    }
  }

  /** The titles of project `q` (none when it has no table) stay in order
      when one more pair is listed, and a pair new to the list goes last. */
  lemma TableOrderAppend(idx: Index, notes: seq<NoteRef>, q: string, y: (string, string))
    requires forall p :: HasKey(idx, p) ==> FirstOccurrenceOrder(Tagged(p, Keys(Get(idx, p))), Pairs(notes))
    requires forall p, t :: InIndex(idx, p, t) ==> (p, t) in Pairs(notes)
    ensures var tagged := Tagged(q, Keys(if HasKey(idx, q) then Get(idx, q) else []));
      && FirstOccurrenceOrder(tagged, Pairs(notes) + [y])
      && (y !in Pairs(notes) ==> FirstOccurrenceOrder(tagged + [y], Pairs(notes) + [y]))
  {
    var table := if HasKey(idx, q) then Get(idx, q) else [];
    var tagged := Tagged(q, Keys(table));
    forall i | 0 <= i < |tagged| ensures tagged[i] in Pairs(notes) {
      assert HasKey(table, table[i].0);
      assert InIndex(idx, q, table[i].0);
    }
    FirstOccurrenceOrderAppend(tagged, Pairs(notes), y);
  }

  /** The loop lists projects and titles in the order of their first
      note among the notes entered. */
  lemma {:induction false} BuildIndexOrder(b: Base, notes: seq<NoteRef>)
    requires BuildIndex(b, notes).Ok?
    ensures IndexInNoteOrder(BuildIndex(b, notes).value, notes)
  {
    if |notes| > 0 {
      var prefix := notes[..|notes| - 1];
      var n := notes[|notes| - 1];
      BuildIndexLast(b, notes);
      BuildIndexOrder(b, prefix);
      var idx := BuildIndex(b, prefix).value;
      BuildIndexMembers(b, prefix);
      AddToIndexOrder(idx, notes, EntryOf(b, n));
    }
  }

  /** Entering the last note keeps the index in note order. */
  lemma AddToIndexOrder(idx: Index, notes: seq<NoteRef>, e: IndexEntry)
    requires |notes| > 0
    requires IndexInNoteOrder(idx, notes[..|notes| - 1])
    requires forall p :: HasKey(idx, p) <==> p in Projects(notes[..|notes| - 1])
    requires forall p, t :: InIndex(idx, p, t) <==> (p, t) in Pairs(notes[..|notes| - 1])
    ensures var n := notes[|notes| - 1];
      IndexInNoteOrder(AddToIndex(idx, n.project, n.title, e), notes)
  {
    var prefix := notes[..|notes| - 1];
    var n := notes[|notes| - 1];
    assert notes == prefix + [n];
    var idx' := AddToIndex(idx, n.project, n.title, e);
    AddToIndexProjectOrder(idx, prefix, n, e);
    forall q | HasKey(idx', q) ensures FirstOccurrenceOrder(Tagged(q, Keys(Get(idx', q))), Pairs(notes)) {
      AddToIndexTitleOrder(idx, prefix, n, e, q);
    }
  }

  /** The index's projects and pairs are those of the notes entered. */
  lemma BuildIndexMembers(b: Base, notes: seq<NoteRef>)
    requires BuildIndex(b, notes).Ok?
    ensures forall p :: HasKey(BuildIndex(b, notes).value, p) <==> p in Projects(notes)
    ensures forall p, t :: InIndex(BuildIndex(b, notes).value, p, t) <==> (p, t) in Pairs(notes)
  {
    forall p ensures HasKey(BuildIndex(b, notes).value, p) <==> p in Projects(notes) {
      BuildIndexProjects(b, notes, p);
    }
    forall p, t ensures InIndex(BuildIndex(b, notes).value, p, t) <==> (p, t) in Pairs(notes) {
      BuildIndexPairs(b, notes, p, t);
      HasPairIn(notes, p, t);
    }
  }

  /** A project's first kept note carries the pair of the project's first
      note among all notes. */
  lemma KeptFirstProject(notes: seq<NoteRef>, p: string)
    requires p in Projects(LatestNotes(notes))
    ensures p in Projects(notes)
    ensures FirstPos(Pairs(notes), Pairs(LatestNotes(notes))[FirstPos(Projects(LatestNotes(notes)), p)]) == FirstPos(Projects(notes), p)
  {
    var kept := LatestNotes(notes);
    var a := FirstPos(Projects(kept), p);
    var u := Pairs(kept)[a];
    var k := KeptSource(notes, a);
    assert Projects(notes)[k] == p && Pairs(notes)[k] == u;
    var m := FirstPos(Projects(notes), p);
    var u' := Pairs(notes)[m];
    var a' := LatestNotesCover(notes, m);
    assert Pairs(kept)[a'] == u' && Projects(kept)[a'] == p;
    PairAfterProject(notes, u, p);
    assert FirstPos(Pairs(notes), u') <= m;
    KeptPairsMonotone(notes, a, a');
  }

  /** Kept notes further along carry pairs that first occur further along
      in all notes. */
  lemma KeptPairsMonotone(notes: seq<NoteRef>, a: int, a': int)
    requires 0 <= a <= a' < |LatestNotes(notes)|
    ensures FirstPos(Pairs(notes), Pairs(LatestNotes(notes))[a]) <= FirstPos(Pairs(notes), Pairs(LatestNotes(notes))[a'])
  {
    LatestNotesOrder(notes);
  }

  /** The kept note at position `j` is one of the notes. */
  lemma KeptSource(notes: seq<NoteRef>, j: int) returns (k: int)
    requires 0 <= j < |LatestNotes(notes)|
    ensures 0 <= k < |notes| && notes[k] == LatestNotes(notes)[j]
  {
    LatestNotesAreLatest(notes, j);
    k :| 0 <= k < |notes| && notes[k] == LatestNotes(notes)[j];
  }

  /** A pair of project `p` first occurs no earlier than `p` itself. */
  lemma PairAfterProject(notes: seq<NoteRef>, u: (string, string), p: string)
    requires u in Pairs(notes) && u.0 == p
    ensures p in Projects(notes)
    ensures FirstPos(Projects(notes), p) <= FirstPos(Pairs(notes), u)
  {
    var c := FirstPos(Pairs(notes), u);
    assert Projects(notes)[c] == p;
  }

  /** Projects come first in the kept notes in the order they come first in
      all notes. */
  lemma KeptProjectsOrder(notes: seq<NoteRef>, p: string, q: string)
    requires p in Projects(LatestNotes(notes)) && q in Projects(LatestNotes(notes))
    requires FirstPos(Projects(LatestNotes(notes)), p) < FirstPos(Projects(LatestNotes(notes)), q)
    ensures FirstPos(Projects(notes), p) < FirstPos(Projects(notes), q)
  {
    KeptFirstProject(notes, p);
    KeptFirstProject(notes, q);
    LatestNotesOrder(notes);
  }

  /** Pairs come first in the kept notes in the order they come first in
      all notes. */
  lemma KeptPairsOrder(notes: seq<NoteRef>, u: (string, string), v: (string, string))
    requires u in Pairs(LatestNotes(notes)) && v in Pairs(LatestNotes(notes))
    requires FirstPos(Pairs(LatestNotes(notes)), u) < FirstPos(Pairs(LatestNotes(notes)), v)
    ensures FirstPos(Pairs(notes), u) < FirstPos(Pairs(notes), v)
  {
    LatestNotesOrder(notes);
  }

  /** The rebuilt index lists projects in the order of each project's first
      note in `get_all_notes()`, and each project's titles in the order of
      each title's first note in that project: the listing order is the
      order the search later walks. */
  lemma RebuildIndexOrder(b: Base)
    requires RebuildIndex(b).Ok?
    ensures IndexInNoteOrder(RebuildIndex(b).value.0, GetAllNotes(b))
  {
    var notes := GetAllNotes(b);
    var kept := LatestNotes(notes);
    var idx := RebuildIndex(b).value.0;
    assert idx == BuildIndex(b, kept).value;
    BuildIndexOrder(b, kept);
    var keys := Keys(idx);
    forall i, j | 0 <= i < j < |keys| ensures FirstPos(Projects(notes), keys[i]) < FirstPos(Projects(notes), keys[j]) {
      BuildIndexProjects(b, kept, keys[i]);
      BuildIndexProjects(b, kept, keys[j]);
      KeptProjectsOrder(notes, keys[i], keys[j]);
    }
    forall p | HasKey(idx, p) ensures FirstOccurrenceOrder(Tagged(p, Keys(Get(idx, p))), Pairs(notes)) {
      KeptTitlesOrder(b, kept, notes, idx, p);
    }
  }

  lemma KeptTitlesOrder(b: Base, kept: seq<NoteRef>, notes: seq<NoteRef>, idx: Index, p: string)
    requires kept == LatestNotes(notes) && BuildIndex(b, kept).Ok? && idx == BuildIndex(b, kept).value
    requires IndexInNoteOrder(idx, kept) && HasKey(idx, p)
    ensures FirstOccurrenceOrder(Tagged(p, Keys(Get(idx, p))), Pairs(notes))
  {
    var tagged := Tagged(p, Keys(Get(idx, p)));
    forall i, j | 0 <= i < j < |tagged| ensures FirstPos(Pairs(notes), tagged[i]) < FirstPos(Pairs(notes), tagged[j]) {
      TaggedInPairs(b, kept, idx, p, i);
      TaggedInPairs(b, kept, idx, p, j);
      KeptPairsOrder(notes, tagged[i], tagged[j]);
    }
  }

  lemma TaggedInPairs(b: Base, kept: seq<NoteRef>, idx: Index, p: string, i: int)
    requires BuildIndex(b, kept).Ok? && idx == BuildIndex(b, kept).value
    requires HasKey(idx, p) && 0 <= i < |Get(idx, p)|
    ensures Tagged(p, Keys(Get(idx, p)))[i] in Pairs(kept)
  {
    var t := Get(idx, p)[i].0;
    assert HasKey(Get(idx, p), t);
    BuildIndexPairs(b, kept, p, t);
    HasPairIn(kept, p, t);
  }

  // -------------------------------------------------------------- excerpts

  /** `context_chars`, left at its default. */
  const ContextChars: nat := 150

  function Ellipsis(cut: bool): string {
    if cut then "..." else ""
  }

  /** The window `_generate_excerpt` cuts around the first match at `pos`
      of a query of length `len`: it reaches `ContextChars` characters to
      either side of the match, stopping short only at an end of the
      content. */
  predicate MatchWindow(size: nat, pos: nat, len: nat, s: int, e: int) {
    && 0 <= s <= pos && pos + len <= e <= size
    && pos - s <= ContextChars && (s == 0 || pos - s == ContextChars)
    && e - (pos + len) <= ContextChars && (e == size || e - (pos + len) == ContextChars)
  }

  /** `_generate_excerpt(content, query)`: the text around the first
      case-insensitive occurrence of the query, marked with `...` where it
      was cut; without an occurrence, the first `2 * ContextChars`
      characters. */
  function Excerpt(content: string, query: string): (r: string)
    ensures !Contains(Lower(content), Lower(query)) ==>
      r == Take(content, 2 * ContextChars) + Ellipsis(|content| > 2 * ContextChars)
    ensures Contains(Lower(content), Lower(query)) ==>
      exists s, e :: MatchWindow(|content|, Find(Lower(content), Lower(query)), |query|, s, e)
        && r == Ellipsis(s > 0) + content[s..e] + Ellipsis(e < |content|)
  {
    var pos := Find(Lower(content), Lower(query));
    if pos == -1 then
      Take(content, 2 * ContextChars) + Ellipsis(|content| > 2 * ContextChars)
    else
      Window(content, pos, |query|)
  }

  /** The cut around a match at `pos` of length `len`. */
  function Window(content: string, pos: nat, len: nat): (r: string)
    requires pos + len <= |content|
    ensures exists s, e :: (MatchWindow(|content|, pos, len, s, e)
      && r == Ellipsis(s > 0) + content[s..e] + Ellipsis(e < |content|))
  {
    var start := if pos - ContextChars > 0 then pos - ContextChars else 0;
    var end := if pos + len + ContextChars < |content| then pos + len + ContextChars else |content|;
    assert MatchWindow(|content|, pos, len, start, end);
    Ellipsis(start > 0) + content[start..end] + Ellipsis(end < |content|)
  }

  /** When the query occurs, the excerpt shows it. */
  lemma ExcerptShowsMatch(content: string, query: string)
    requires Contains(Lower(content), Lower(query))
    ensures Contains(Lower(Excerpt(content, query)), Lower(query))
  {
    var low := Lower(content);
    var q := Lower(query);
    var pos := Find(low, q);
    assert low[pos..pos + |q|] == q;
    var r := Excerpt(content, query);
    var s, e :| MatchWindow(|content|, pos, |query|, s, e)
      && r == Ellipsis(s > 0) + content[s..e] + Ellipsis(e < |content|);
    var pre := Ellipsis(s > 0);
    var post := Ellipsis(e < |content|);
    var mid := low[s..e];
    LowerPieces(pre, content, s, e, post);
    var lr := Lower(r);
    assert lr == Lower(pre) + mid + Lower(post);
    WindowShowsMatch(lr, Lower(pre), Lower(post), low, q, s, e, pos);
  }

  /** A match inside the window `low[s..e]` is still a match once the
      window is framed by other text. */
  lemma WindowShowsMatch(lr: string, a: string, c: string, low: string, q: string, s: int, e: int, pos: int)
    requires 0 <= s <= pos && pos + |q| <= e <= |low|
    requires low[pos..pos + |q|] == q
    requires lr == a + low[s..e] + c
    ensures OccursAt(lr, q, |a| + pos - s)
  {
    InsideSlice(a, low[s..e], c, pos - s, |q|);
    SliceOfSlice(low, s, e, pos - s, pos - s + |q|);
  }

  lemma LowerPieces(pre: string, content: string, s: int, e: int, post: string)
    requires 0 <= s <= e <= |content|
    ensures Lower(pre + content[s..e] + post) == Lower(pre) + Lower(content)[s..e] + Lower(post)
  {
    LowerConcat(pre + content[s..e], post);
    LowerConcat(pre, content[s..e]);
    LowerSlice(content, s, e);
  }

  lemma SliceOfSlice(x: string, s: int, e: int, i: int, j: int)
    requires 0 <= s <= e <= |x| && 0 <= i <= j <= e - s
    ensures x[s..e][i..j] == x[s + i..s + j]
  {
    var a := x[s..e][i..j];
    var b := x[s + i..s + j];
    forall k | 0 <= k < j - i ensures a[k] == b[k] {
      assert a[k] == x[s + i + k];
    }
  }

  lemma InsideSlice(a: string, m: string, c: string, k: int, n: int)
    requires 0 <= k && k + n <= |m| && 0 <= n
    ensures (a + m + c)[|a| + k..|a| + k + n] == m[k..k + n]
  {
    var w := a + m + c;
    var x := w[|a| + k..|a| + k + n];
    var y := m[k..k + n];
    forall i | 0 <= i < n ensures x[i] == y[i] {
      assert x[i] == w[|a| + k + i];
    }
  }

  // ------------------------------------------------------- ordering results

  /** Scores never increase along `s`. */
  predicate ByScore(s: seq<SearchResult>) {
    forall i, j :: 0 <= i < j < |s| ==> s[j].score <= s[i].score
  }

  /** The results of `s` scoring exactly `v`, in their order in `s`. */
  function WithScore(s: seq<SearchResult>, v: real): seq<SearchResult> {
    if |s| == 0 then []
    else (if s[0].score == v then [s[0]] else []) + WithScore(s[1..], v)
  }

  /** The results scoring `v` are exactly the members of `s` with that
      score. */
  lemma {:induction false} WithScoreMembers(s: seq<SearchResult>, v: real, x: SearchResult)
    ensures x in WithScore(s, v) <==> x in s && x.score == v
  {
    if |s| > 0 {
      WithScoreMembers(s[1..], v, x);
      assert s == [s[0]] + s[1..];
    }
  }

  lemma WithScoreCons(y: SearchResult, s: seq<SearchResult>, v: real)
    ensures WithScore([y] + s, v) == (if y.score == v then [y] else []) + WithScore(s, v)
  {
    assert ([y] + s)[1..] == s;
  }

  /** Puts `x` in front of the first result that does not score above it,
      so it lands after every higher score and before every equal one. */
  function InsertByScore(x: SearchResult, s: seq<SearchResult>): (r: seq<SearchResult>)
    ensures multiset(r) == multiset(s) + multiset{x}
  {
    if |s| == 0 || s[0].score <= x.score then
      [x] + s
    else
      assert s == [s[0]] + s[1..];
      [s[0]] + InsertByScore(x, s[1..])
  }

  /** No result of `s` scores above `m`. */
  predicate AtMost(s: seq<SearchResult>, m: real) {
    forall i :: 0 <= i < |s| ==> s[i].score <= m
  }

  lemma {:induction false} InsertAtMost(x: SearchResult, s: seq<SearchResult>, m: real)
    requires AtMost(s, m) && x.score <= m
    ensures AtMost(InsertByScore(x, s), m)
  {
    if |s| > 0 && x.score < s[0].score {
      InsertAtMost(x, s[1..], m);
      var r := InsertByScore(x, s);
      assert r == [s[0]] + InsertByScore(x, s[1..]);
    }
  }

  /** Inserting into a sequence ordered by score keeps it ordered. */
  lemma {:induction false} InsertKeepsOrder(x: SearchResult, s: seq<SearchResult>)
    requires ByScore(s)
    ensures ByScore(InsertByScore(x, s))
  {
    if |s| > 0 && x.score < s[0].score {
      var rest := InsertByScore(x, s[1..]);
      InsertKeepsOrder(x, s[1..]);
      InsertAtMost(x, s[1..], s[0].score);
      assert InsertByScore(x, s) == [s[0]] + rest;
      ByScoreCons(s[0], rest);
    }
  }

  /** A result scoring at least as high as everything after it keeps the
      order. */
  lemma ByScoreCons(x: SearchResult, s: seq<SearchResult>)
    requires ByScore(s) && AtMost(s, x.score)
    ensures ByScore([x] + s)
  {
    var r := [x] + s;
    forall i, j | 0 <= i < j < |r| ensures r[j].score <= r[i].score {
      assert r[j] == s[j - 1];
      if i > 0 {
        assert r[i] == s[i - 1];
      }
    }
  }

  /** Inserting `x` puts it ahead of the results with its score and
      leaves every other score's results as they were. */
  lemma {:induction false} InsertWithScore(x: SearchResult, s: seq<SearchResult>, v: real)
    ensures WithScore(InsertByScore(x, s), v) == if x.score == v then [x] + WithScore(s, v) else WithScore(s, v)
  {
    if |s| == 0 || s[0].score <= x.score {
      assert InsertByScore(x, s) == [x] + s;
      WithScoreCons(x, s, v);
    } else {
      var rest := InsertByScore(x, s[1..]);
      assert InsertByScore(x, s) == [s[0]] + rest;
      InsertWithScore(x, s[1..], v);
      WithScoreCons(s[0], rest, v);
      WithScoreCons(s[0], s[1..], v);
      assert s == [s[0]] + s[1..];
      assert x.score == v ==> s[0].score != v;
    }
  }

  /** `results.sort(key=lambda x: x.score, reverse=True)`: a stable sort
      by descending score. The results are reordered, not changed; scores
      never increase; results with equal scores keep their order. */
  function SortByScore(s: seq<SearchResult>): (r: seq<SearchResult>)
    ensures multiset(r) == multiset(s)
    ensures ByScore(r)
    ensures forall v :: WithScore(r, v) == WithScore(s, v)
  {
    if |s| == 0 then []
    else
      assert s == [s[0]] + s[1..];
      var rest := SortByScore(s[1..]);
      InsertKeepsOrder(s[0], rest);
      forall v ensures WithScore(InsertByScore(s[0], rest), v) == WithScore(s, v) {
        InsertWithScore(s[0], rest, v);
      }
      InsertByScore(s[0], rest)
  }

  lemma WithScoreHead(s: seq<SearchResult>)
    ensures |s| > 0 ==> WithScore(s, s[0].score) == [s[0]] + WithScore(s[1..], s[0].score)
  {
  }

  lemma SameMembers(a: seq<SearchResult>, b: seq<SearchResult>)
    requires forall v :: WithScore(a, v) == WithScore(b, v)
    ensures forall x :: x in a <==> x in b
    ensures |a| == 0 <==> |b| == 0
  {
    forall x ensures x in a <==> x in b {
      WithScoreMembers(a, x.score, x);
      WithScoreMembers(b, x.score, x);
    }
    if |a| > 0 {
      assert a[0] in b;
    }
    if |b| > 0 {
      assert b[0] in a;
    }
  }

  /** The head of a sequence ordered by score holds its top score. */
  lemma HeadIsTop(a: seq<SearchResult>, x: SearchResult)
    requires ByScore(a) && x in a
    ensures x.score <= a[0].score
  {
    var k :| 0 <= k < |a| && a[k] == x;
  }

  /** Removing the head leaves every other score's results alone. */
  lemma WithScoreTail(a: seq<SearchResult>, v: real)
    requires |a| > 0 && a[0].score != v
    ensures WithScore(a, v) == WithScore(a[1..], v)
  {
  }

  /** Being ordered by score and keeping each score's results in a given
      order determines a sequence: the stable descending sort has exactly
      one possible outcome, and `SortByScore` is it. */
  lemma {:induction false} ByScoreUnique(a: seq<SearchResult>, b: seq<SearchResult>)
    requires ByScore(a) && ByScore(b)
    requires forall v :: WithScore(a, v) == WithScore(b, v)
    ensures a == b
    decreases |a|
  {
    SameMembers(a, b);
    if |a| > 0 {
      assert a[0] in b;
      HeadIsTop(b, a[0]);
      HeadIsTop(a, b[0]);
      var m := a[0].score;
      WithScoreHead(a);
      WithScoreHead(b);
      var ta := WithScore(a[1..], m);
      var tb := WithScore(b[1..], m);
      assert [a[0]] + ta == [b[0]] + tb;
      assert a[0] == b[0] && ta == tb by {
        assert ([a[0]] + ta)[0] == a[0] && ([b[0]] + tb)[0] == b[0];
        assert ([a[0]] + ta)[1..] == ta && ([b[0]] + tb)[1..] == tb;
      }
      forall v ensures WithScore(a[1..], v) == WithScore(b[1..], v) {
        if v != m {
          WithScoreTail(a, v);
          WithScoreTail(b, v);
        }
      }
      ByScoreUnique(a[1..], b[1..]);
      assert a == [a[0]] + a[1..] && b == [b[0]] + b[1..];
    }
  }

  /** Any ordering by descending score that keeps equal scores in input
      order is what `SortByScore` returns. */
  lemma SortByScoreIsStableSort(s: seq<SearchResult>, t: seq<SearchResult>)
    requires ByScore(t)
    requires forall v :: WithScore(t, v) == WithScore(s, v)
    ensures SortByScore(s) == t
  {
    ByScoreUnique(SortByScore(s), t);
  }

  // ---------------------------------------------------------------- search

  /** `fuzz.partial_ratio(query, target)`: a similarity score between 0 and
      100 whose computation is not part of this model. */
  type Scorer = (string, string) -> real

  /** `threshold`'s default. */
  const DefaultThreshold: int := 60

  /** `max(title_score, content_score)` over the lower-cased query, title
      and content. */
  function BestScore(score: Scorer, query: string, title: string, content: string): (r: real)
    ensures r == score(Lower(query), Lower(title)) || r == score(Lower(query), Lower(content))
    ensures r >= score(Lower(query), Lower(title)) && r >= score(Lower(query), Lower(content))
  {
    var ts := score(Lower(query), Lower(title));
    var cs := score(Lower(query), Lower(content));
    if cs > ts then cs else ts
  }

  /** The `SearchResult` built for note `title` of project `p`. */
  function Candidate(score: Scorer, query: string, p: string, title: string, content: string): SearchResult {
    SearchResult(p, title, content, BestScore(score, query, title, content), Excerpt(content, query))
  }

  /** `best_score >= threshold`. */
  predicate Passes(v: real, threshold: int) {
    v >= threshold as real
  }

  /** `x` is what `search` reports for the indexed note (`x.project`,
      `x.title`): its content, its best score, its excerpt, and a score
      that reaches the threshold. */
  predicate IsHit(idx: Index, score: Scorer, query: string, threshold: int, x: SearchResult) {
    && InIndex(idx, x.project, x.title)
    && x == Candidate(score, query, x.project, x.title, EntryAt(idx, x.project, x.title).content)
    && Passes(x.score, threshold)
  }

  /** The inner loop over one project's table, in table order. */
  function TableHits(score: Scorer, query: string, threshold: int, p: string, table: Dict<string, IndexEntry>): (r: seq<SearchResult>)
    ensures forall i :: 0 <= i < |r| ==> r[i].project == p && Passes(r[i].score, threshold)
  {
    if |table| == 0 then []
    else
      var x := Candidate(score, query, p, table[0].0, table[0].1.content);
      (if Passes(x.score, threshold) then [x] else []) + TableHits(score, query, threshold, p, table[1..])
  }

  lemma GetTail<V>(d: Dict<string, V>, k: string)
    requires |d| > 0 && d[0].0 != k && HasKey(d, k)
    ensures HasKey(d[1..], k) && Get(d, k) == Get(d[1..], k)
  {
    HasKeyFirst(d);
  }

  /** A project's hits are exactly its notes that reach the threshold. */
  lemma {:induction false} TableHitsMembers(score: Scorer, query: string, threshold: int, p: string, table: Dict<string, IndexEntry>, x: SearchResult)
    requires DistinctKeys(table)
    ensures x in TableHits(score, query, threshold, p, table) <==>
      x.project == p && HasKey(table, x.title)
      && x == Candidate(score, query, p, x.title, Get(table, x.title).content)
      && Passes(x.score, threshold)
  {
    if |table| > 0 {
      var t := table[1..];
      TableHitsMembers(score, query, threshold, p, t, x);
      HasKeyFirst(table);
      if x.title == table[0].0 {
        GetAt(table, 0);
        TailLacksHead(table);
      } else if HasKey(table, x.title) {
        GetTail(table, x.title);
      }
    }
  }

  /** A table with distinct titles yields each hit once. */
  lemma {:induction false} TableHitsOnce(score: Scorer, query: string, threshold: int, p: string, table: Dict<string, IndexEntry>, x: SearchResult)
    requires DistinctKeys(table)
    ensures multiset(TableHits(score, query, threshold, p, table))[x] <= 1
  {
    if |table| > 0 {
      var t := table[1..];
      TableHitsOnce(score, query, threshold, p, t, x);
      var y := Candidate(score, query, p, table[0].0, table[0].1.content);
      if x == y {
        TableHitsMembers(score, query, threshold, p, t, x);
        TailLacksHead(table);
      }
    }
  }

  /** The outer loop: the hits of every listed project present in the
      index, project by project. */
  function Collect(idx: Index, score: Scorer, query: string, threshold: int, projects: seq<string>): (r: seq<SearchResult>)
    ensures forall i :: 0 <= i < |r| ==> Passes(r[i].score, threshold)
  {
    if |projects| == 0 then []
    else
      var p := projects[0];
      (if HasKey(idx, p) then TableHits(score, query, threshold, p, Get(idx, p)) else [])
        + Collect(idx, score, query, threshold, projects[1..])
  }

  /** The collected results are the hits of the listed projects. */
  lemma {:induction false} CollectMembers(idx: Index, score: Scorer, query: string, threshold: int, projects: seq<string>, x: SearchResult)
    requires IndexWellFormed(idx)
    ensures x in Collect(idx, score, query, threshold, projects) <==> x.project in projects && IsHit(idx, score, query, threshold, x)
  {
    if |projects| > 0 {
      var p := projects[0];
      CollectMembers(idx, score, query, threshold, projects[1..], x);
      if HasKey(idx, p) {
        TableHitsMembers(score, query, threshold, p, Get(idx, p), x);
      }
      assert x.project in projects <==> x.project == p || x.project in projects[1..] by {
        assert projects == [p] + projects[1..];
      }
    }
  }

  predicate NoRepeats(projects: seq<string>) {
    forall i, j :: 0 <= i < j < |projects| ==> projects[i] != projects[j]
  }

  /** Listing each project once yields each hit once. */
  lemma {:induction false} CollectOnce(idx: Index, score: Scorer, query: string, threshold: int, projects: seq<string>, x: SearchResult)
    requires IndexWellFormed(idx) && NoRepeats(projects)
    ensures multiset(Collect(idx, score, query, threshold, projects))[x] <= 1
  {
    if |projects| > 0 {
      var p := projects[0];
      var rest := projects[1..];
      var here := if HasKey(idx, p) then TableHits(score, query, threshold, p, Get(idx, p)) else [];
      CollectOnce(idx, score, query, threshold, rest, x);
      if HasKey(idx, p) {
        TableHitsOnce(score, query, threshold, p, Get(idx, p), x);
      }
      if x in here {
        assert x.project == p;
        CollectMembers(idx, score, query, threshold, rest, x);
        forall i | 0 <= i < |rest| ensures rest[i] != p {
          assert rest[i] == projects[i + 1];
        }
      }
    }
  }

  /** `[project] if project else list(self.index.keys())`. */
  function SearchedProjects(idx: Index, project: Option<string>): (r: seq<string>)
    ensures Requested(project) ==> r == [project.value]
    ensures !Requested(project) ==> forall p :: p in r <==> HasKey(idx, p)
  {
    if Requested(project) then [project.value] else Keys(idx)
  }

  /** `search(query, project, threshold)`: every hit of the searched
      projects, ordered by descending score, hits with equal scores in the
      order the projects and their tables were walked. */
  function Search(idx: Index, score: Scorer, query: string, project: Option<string>, threshold: int): (r: seq<SearchResult>)
    ensures ByScore(r)
    ensures forall v :: WithScore(r, v) == WithScore(Collect(idx, score, query, threshold, SearchedProjects(idx, project)), v)
  {
    SortByScore(Collect(idx, score, query, threshold, SearchedProjects(idx, project)))
  }

  /** A result is reported exactly when it is the hit of an indexed note
      in a searched project: a given project confines the results to it. */
  lemma SearchFinds(idx: Index, score: Scorer, query: string, project: Option<string>, threshold: int, x: SearchResult)
    requires IndexWellFormed(idx)
    ensures x in Search(idx, score, query, project, threshold) <==>
      IsHit(idx, score, query, threshold, x) && (Requested(project) ==> x.project == project.value)
  {
    var ps := SearchedProjects(idx, project);
    var c := Collect(idx, score, query, threshold, ps);
    CollectMembers(idx, score, query, threshold, ps, x);
    assert x in Search(idx, score, query, project, threshold) <==> x in c by {
      assert x in multiset(SortByScore(c)) <==> x in multiset(c);
    }
  }

  /** `search(query)` with its defaults searches every project of the
      index and reports exactly the indexed notes whose best score is at
      least 60. */
  lemma SearchWithDefaults(idx: Index, score: Scorer, query: string, x: SearchResult)
    requires IndexWellFormed(idx)
    ensures x in Search(idx, score, query, None, DefaultThreshold) <==>
      && InIndex(idx, x.project, x.title)
      && x == Candidate(score, query, x.project, x.title, EntryAt(idx, x.project, x.title).content)
      && x.score >= 60.0
  {
    SearchFinds(idx, score, query, None, DefaultThreshold, x);
  }

  /** A given project that is not in the index yields no results. */
  lemma SearchUnknownProject(idx: Index, score: Scorer, query: string, p: string, threshold: int)
    requires IndexWellFormed(idx) && p != "" && !HasKey(idx, p)
    ensures Search(idx, score, query, Some(p), threshold) == []
  {
    var r := Search(idx, score, query, Some(p), threshold);
    if |r| > 0 {
      SearchFinds(idx, score, query, Some(p), threshold, r[0]);
    }
  }

  /** No note is reported twice. */
  lemma SearchOnce(idx: Index, score: Scorer, query: string, project: Option<string>, threshold: int)
    requires IndexWellFormed(idx)
    ensures var r := Search(idx, score, query, project, threshold);
      forall i, j :: 0 <= i < j < |r| ==> (r[i].project, r[i].title) != (r[j].project, r[j].title)
  {
    var r := Search(idx, score, query, project, threshold);
    var ps := SearchedProjects(idx, project);
    var c := Collect(idx, score, query, threshold, ps);
    if !Requested(project) {
      forall i, j | 0 <= i < j < |ps| ensures ps[i] != ps[j] {
        assert ps[i] == idx[i].0 && ps[j] == idx[j].0;
      }
    }
    forall i, j | 0 <= i < j < |r| ensures (r[i].project, r[i].title) != (r[j].project, r[j].title) {
      SearchFinds(idx, score, query, project, threshold, r[i]);
      SearchFinds(idx, score, query, project, threshold, r[j]);
      CollectOnce(idx, score, query, threshold, ps, r[i]);
      StringSort.RepeatCount(r, i, j);
    }
  }

  /** A higher threshold reports a subset of the results. */
  lemma SearchThresholdMonotone(idx: Index, score: Scorer, query: string, project: Option<string>, low: int, high: int, x: SearchResult)
    requires IndexWellFormed(idx) && low <= high
    requires x in Search(idx, score, query, project, high)
    ensures x in Search(idx, score, query, project, low)
  {
    SearchFinds(idx, score, query, project, high, x);
    SearchFinds(idx, score, query, project, low, x);
  }

  /** The query enters a result only lower-cased, and through its length. */
  lemma CandidateIgnoresCase(score: Scorer, q1: string, q2: string, p: string, title: string, content: string)
    requires Lower(q1) == Lower(q2)
    ensures Candidate(score, q1, p, title, content) == Candidate(score, q2, p, title, content)
  {
    ExcerptIgnoresCase(content, q1, q2);
  }

  lemma ExcerptIgnoresCase(content: string, q1: string, q2: string)
    requires Lower(q1) == Lower(q2)
    ensures Excerpt(content, q1) == Excerpt(content, q2)
  {
    assert |q1| == |Lower(q1)| == |Lower(q2)| == |q2|;
  }

  lemma {:induction false} TableHitsIgnoresCase(score: Scorer, q1: string, q2: string, threshold: int, p: string, table: Dict<string, IndexEntry>)
    requires Lower(q1) == Lower(q2)
    ensures TableHits(score, q1, threshold, p, table) == TableHits(score, q2, threshold, p, table)
  {
    if |table| > 0 {
      CandidateIgnoresCase(score, q1, q2, p, table[0].0, table[0].1.content);
      TableHitsIgnoresCase(score, q1, q2, threshold, p, table[1..]);
    }
  }

  lemma {:induction false} CollectIgnoresCase(idx: Index, score: Scorer, q1: string, q2: string, threshold: int, projects: seq<string>)
    requires Lower(q1) == Lower(q2)
    ensures Collect(idx, score, q1, threshold, projects) == Collect(idx, score, q2, threshold, projects)
  {
    if |projects| > 0 {
      if HasKey(idx, projects[0]) {
        TableHitsIgnoresCase(score, q1, q2, threshold, projects[0], Get(idx, projects[0]));
      }
      CollectIgnoresCase(idx, score, q1, q2, threshold, projects[1..]);
    }
  }

  /** Queries that differ only in letter case return the same results. */
  lemma SearchIgnoresCase(idx: Index, score: Scorer, q1: string, q2: string, project: Option<string>, threshold: int)
    requires Lower(q1) == Lower(q2)
    ensures Search(idx, score, q1, project, threshold) == Search(idx, score, q2, project, threshold)
  {
    CollectIgnoresCase(idx, score, q1, q2, threshold, SearchedProjects(idx, project));
  }
}
