/**
 * `getTimelineData` (src/block.ts): group the notes of the filtered files by
 * note id and collect the ids, in ascending order, through the ordered index.
 *
 * The host's file cache is replaced by its result: each input file comes with
 * its frontmatter (or `null`). Resolving an image path to a displayable URL is
 * done by the host; it is a parameter here.
 */
module Timeline {
  import opened JsBuiltins
  import opened Types
  import opened FrontmatterExtraction
  import opened NoteIds
  import opened Bst

  /** One filtered file and its cached frontmatter. */
  datatype FileEntry = FileEntry(file: TFile, frontmatter: Option<Frontmatter>)

  /** The host's `getImgUrl`: a frontmatter image value to a displayable URL, or `null`. */
  type ImageResolver = Option<string> -> Option<string>

  type TimelineNotes = map<int, seq<CardContainer>>

  function Data(e: FileEntry, settings: Settings): FrontmatterData {
    GetFrontmatterData(e.frontmatter, settings.frontmatterKeys, e.file)
  }

  /** The id of a file's note, or `None` when the start date does not give an integer. */
  function NoteIdOf(e: FileEntry, settings: Settings): Option<int> {
    EncodeId(Data(e, settings).startDate)
  }

  /**
   * The note literal built for a file. A missing "desription" falls back to
   * the frontmatter's "description" (the frontmatter exists whenever the
   * fallback is taken, see `MissingDescriptionHasFrontmatter`).
   */
  function NoteFrom(e: FileEntry, d: FrontmatterData, resolveImage: ImageResolver): (r: CardContainer)
    ensures d.description.Some? ==> r.description == d.description
    ensures d.description.None? ==> r.description == Get(e.frontmatter, "description")
    ensures r.description.None? <==>
      d.description.None? && (e.frontmatter.None? || "description" !in e.frontmatter.value)
    ensures r.img == resolveImage(d.img)
    ensures r.date == d.startDate && r.title == d.noteTitle && r.path == d.notePath
    ensures r.endDate == d.endDate && r.eventType == d.eventType && r.cssClass == d.noteClass
  {
    CardContainer(
      d.startDate,
      d.noteTitle,
      if d.description.Some? then d.description else Get(e.frontmatter, "description"),
      resolveImage(d.img),
      d.notePath,
      d.endDate,
      d.eventType,
      d.noteClass)
  }

  function MakeNote(e: FileEntry, settings: Settings, resolveImage: ImageResolver): CardContainer {
    NoteFrom(e, Data(e, settings), resolveImage)
  }

  lemma MissingDescriptionHasFrontmatter(e: FileEntry, settings: Settings)
    requires Data(e, settings).description.None?
    ensures e.frontmatter.Some?
  {
  }

  /**
   * The note of a dated file, read straight from its frontmatter: the first
   * matching start date and title (or the file name without ".md"), the
   * "desription" field or else "description", the resolved "image", the path
   * behind "/", "color" (default ""), "type" (default "box") and the first
   * matching end date.
   */
  lemma NoteFromFrontmatter(e: FileEntry, settings: Settings, resolveImage: ImageResolver)
    requires AnyTruthy(e.frontmatter, settings.frontmatterKeys.startDateKey)
    ensures var fm, keys, note := e.frontmatter.value, settings.frontmatterKeys, MakeNote(e, settings, resolveImage);
      && Some(note.date) == FindMatchingFrontmatterKey(e.frontmatter, keys.startDateKey)
      && note.title == (match FindMatchingFrontmatterKey(e.frontmatter, keys.titleKey)
                        case Some(t) => t
                        case None => RemoveFirst(e.file.name, ".md"))
      && note.description == (if "desription" in fm then Some(fm["desription"])
                              else if "description" in fm then Some(fm["description"]) else None)
      && note.img == resolveImage(Get(e.frontmatter, "image"))
      && note.path == "/" + e.file.path
      && note.cssClass == (if "color" in fm then fm["color"] else "")
      && note.eventType == (if "type" in fm then fm["type"] else "box")
      && note.endDate == FindMatchingFrontmatterKey(e.frontmatter, keys.endDateKey)
  {
    var d := Data(e, settings);
    assert d.startDate != "";
  }

  /** One more note for `id`: a new singleton list, or placed first (`sortDirection`) or last. */
  function AddNote(m: TimelineNotes, id: int, note: CardContainer, sortDirection: bool): seq<CardContainer> {
    if id !in m then [note]
    else if sortDirection then [note] + m[id]
    else m[id] + [note]
  }

  /** The map after one more file: unchanged when the file has no id. */
  function WithFile(m: TimelineNotes, e: FileEntry, settings: Settings, resolveImage: ImageResolver): TimelineNotes {
    match NoteIdOf(e, settings)
    case None => m
    case Some(id) => m[id := AddNote(m, id, MakeNote(e, settings, resolveImage), settings.sortDirection)]
  }

  /** The map built from the files in order (a reference for the loop in GetTimelineData). */
  function Grouped(files: seq<FileEntry>, settings: Settings, resolveImage: ImageResolver): TimelineNotes {
    if files == [] then map[]
    else WithFile(Grouped(files[..|files| - 1], settings, resolveImage), files[|files| - 1], settings, resolveImage)
  }

  /** The notes of the files whose id is `id`, in file order. */
  function NotesWithId(files: seq<FileEntry>, settings: Settings, resolveImage: ImageResolver, id: int): seq<CardContainer> {
    if files == [] then []
    else
      var e := files[|files| - 1];
      NotesWithId(files[..|files| - 1], settings, resolveImage, id)
        + (if NoteIdOf(e, settings) == Some(id) then [MakeNote(e, settings, resolveImage)] else [])
  }

  lemma GroupedNext(files: seq<FileEntry>, i: nat, settings: Settings, resolveImage: ImageResolver)
    requires i < |files|
    ensures Grouped(files[..i + 1], settings, resolveImage)
      == WithFile(Grouped(files[..i], settings, resolveImage), files[i], settings, resolveImage)
  {
    assert files[..i + 1][..i] == files[..i];
  }

  /** The number of files whose start date gives an integer id. */
  function CountWithId(files: seq<FileEntry>, settings: Settings): nat {
    if files == [] then 0
    else CountWithId(files[..|files| - 1], settings) + (if NoteIdOf(files[|files| - 1], settings).Some? then 1 else 0)
  }

  /** The number of files whose id is one of `ids`. */
  function CountWithIdIn(files: seq<FileEntry>, settings: Settings, ids: seq<int>): nat {
    if files == [] then 0
    else
      var id := NoteIdOf(files[|files| - 1], settings);
      CountWithIdIn(files[..|files| - 1], settings, ids) + (if id.Some? && id.value in ids then 1 else 0)
  }

  /** The number of notes listed under the ids `ids`. */
  function TotalNotes(m: TimelineNotes, ids: seq<int>): nat {
    if ids == [] then 0
    else (if ids[0] in m then |m[ids[0]]| else 0) + TotalNotes(m, ids[1..])
  }

  predicate StrictlyIncreasing(s: seq<int>) {
    forall i, j :: 0 <= i < j < |s| ==> s[i] < s[j]
  }

  predicate NoDuplicates(s: seq<int>) {
    forall i, j :: 0 <= i < j < |s| ==> s[i] != s[j]
  }

  // ---------------------------------------------------------------------------
  // What the grouping holds
  // ---------------------------------------------------------------------------

  /**
   * An id is a key exactly when some file has it, and its list holds exactly
   * the notes of those files: in file order when `sortDirection` is false, in
   * reverse file order (each later note placed at index 0) when it is true.
   */
  predicate ListedAsGrouped(files: seq<FileEntry>, settings: Settings, resolveImage: ImageResolver, id: int) {
    Listed(Grouped(files, settings, resolveImage), NotesWithId(files, settings, resolveImage, id), id, settings.sortDirection)
  }

  /** `m` lists exactly `notes` under `id`, reversed when `reversed` holds. */
  predicate Listed(m: TimelineNotes, notes: seq<CardContainer>, id: int, reversed: bool) {
    && (id in m <==> notes != [])
    && (id in m ==> m[id] == if reversed then Reverse(notes) else notes)
  }

  lemma {:induction false} GroupedAt(files: seq<FileEntry>, settings: Settings, resolveImage: ImageResolver, id: int)
    ensures ListedAsGrouped(files, settings, resolveImage, id)
  {
    if files != [] {
      var init := files[..|files| - 1];
      GroupedAt(init, settings, resolveImage, id);
      if NoteIdOf(files[|files| - 1], settings) == Some(id) {
        GroupedStepSame(files, settings, resolveImage, id);
      } else {
        GroupedStepOther(files, settings, resolveImage, id);
      }
    }
  }

  lemma GroupedStepSame(files: seq<FileEntry>, settings: Settings, resolveImage: ImageResolver, id: int)
    requires files != [] && NoteIdOf(files[|files| - 1], settings) == Some(id)
    requires ListedAsGrouped(files[..|files| - 1], settings, resolveImage, id)
    ensures ListedAsGrouped(files, settings, resolveImage, id)
  {
    var init := files[..|files| - 1];
    var n := MakeNote(files[|files| - 1], settings, resolveImage);
    var before := NotesWithId(init, settings, resolveImage, id);
    var m := Grouped(init, settings, resolveImage);
    assert NotesWithId(files, settings, resolveImage, id) == before + [n];
    assert Grouped(files, settings, resolveImage) == m[id := AddNote(m, id, n, settings.sortDirection)];
    if settings.sortDirection {
      ReverseSnoc(before, n);
    }
  }

  lemma GroupedStepOther(files: seq<FileEntry>, settings: Settings, resolveImage: ImageResolver, id: int)
    requires files != [] && NoteIdOf(files[|files| - 1], settings) != Some(id)
    requires ListedAsGrouped(files[..|files| - 1], settings, resolveImage, id)
    ensures ListedAsGrouped(files, settings, resolveImage, id)
  {
    var init := files[..|files| - 1];
    var before := NotesWithId(init, settings, resolveImage, id);
    assert NotesWithId(files, settings, resolveImage, id) == before + [] == before;
    var m := Grouped(init, settings, resolveImage);
    var m' := WithFile(m, files[|files| - 1], settings, resolveImage);
    assert Grouped(files, settings, resolveImage) == m';
    WithFileKeepsOthers(m, files[|files| - 1], settings, resolveImage, id);
    ListedKept(m, m', before, id, settings.sortDirection);
  }

  lemma ListedKept(m: TimelineNotes, m': TimelineNotes, notes: seq<CardContainer>, id: int, reversed: bool)
    requires Listed(m, notes, id, reversed)
    requires id in m' <==> id in m
    requires id in m ==> m'[id] == m[id]
    ensures Listed(m', notes, id, reversed)
  {
  }

  lemma WithFileKeepsOthers(m: TimelineNotes, e: FileEntry, settings: Settings, resolveImage: ImageResolver, id: int)
    requires NoteIdOf(e, settings) != Some(id)
    ensures id in WithFile(m, e, settings, resolveImage) <==> id in m
    ensures id in m ==> WithFile(m, e, settings, resolveImage)[id] == m[id]
  {
  }

  lemma ReverseSnoc<T>(s: seq<T>, x: T)
    ensures Reverse(s + [x]) == [x] + Reverse(s)
  {
    var r, t := Reverse(s + [x]), [x] + Reverse(s);
    assert |r| == |t|;
    forall i | 0 <= i < |r| ensures r[i] == t[i] {
      if i > 0 {
        assert r[i] == (s + [x])[|s| - i];
      }
    }
  }

  /** Files with ids among `k :: rest` are those with id `k` plus those with ids among `rest`. */
  lemma {:induction false} CountSplit(files: seq<FileEntry>, settings: Settings, resolveImage: ImageResolver, k: int, rest: seq<int>)
    requires k !in rest
    ensures CountWithIdIn(files, settings, [k] + rest)
      == |NotesWithId(files, settings, resolveImage, k)| + CountWithIdIn(files, settings, rest)
  {
    if files != [] {
      CountSplit(files[..|files| - 1], settings, resolveImage, k, rest);
    }
  }

  /** Summing the list lengths over distinct ids counts the files having one of those ids. */
  lemma {:induction false} TotalNotesCount(files: seq<FileEntry>, settings: Settings, resolveImage: ImageResolver, ids: seq<int>)
    requires NoDuplicates(ids)
    ensures TotalNotes(Grouped(files, settings, resolveImage), ids) == CountWithIdIn(files, settings, ids)
  {
    if ids == [] {
      CountNone(files, settings);
    } else {
      var k := ids[0];
      assert ids == [k] + ids[1..];
      assert k !in ids[1..] by {
        forall j | 1 <= j < |ids| ensures ids[j] != k { }
      }
      assert NoDuplicates(ids[1..]) by {
        forall i, j | 0 <= i < j < |ids[1..]| ensures ids[1..][i] != ids[1..][j] {
          assert ids[1..][i] == ids[i + 1] && ids[1..][j] == ids[j + 1];
        }
      }
      TotalNotesCount(files, settings, resolveImage, ids[1..]);
      GroupedAt(files, settings, resolveImage, k);
      CountSplit(files, settings, resolveImage, k, ids[1..]);
    }
  }

  lemma {:induction false} CountNone(files: seq<FileEntry>, settings: Settings)
    ensures CountWithIdIn(files, settings, []) == 0
  {
    if files != [] {
      CountNone(files[..|files| - 1], settings);
    }
  }

  /** When `ids` covers every id that occurs, the files counted are all files with an id. */
  lemma {:induction false} CountCovered(files: seq<FileEntry>, settings: Settings, resolveImage: ImageResolver, ids: seq<int>)
    requires forall k :: k in Grouped(files, settings, resolveImage) ==> k in ids
    ensures CountWithIdIn(files, settings, ids) == CountWithId(files, settings)
  {
    if files != [] {
      var init := files[..|files| - 1];
      var e := files[|files| - 1];
      forall k | k in Grouped(init, settings, resolveImage) ensures k in ids {
        GroupedAt(init, settings, resolveImage, k);
        GroupedAt(files, settings, resolveImage, k);
        assert NotesWithId(files, settings, resolveImage, k) != [];
      }
      CountCovered(init, settings, resolveImage, ids);
      match NoteIdOf(e, settings)
      case None =>
      case Some(id) =>
        GroupedAt(files, settings, resolveImage, id);
        assert NotesWithId(files, settings, resolveImage, id) != [];
    }
  }

  // ---------------------------------------------------------------------------
  // Distinct sorted keys from the index
  // ---------------------------------------------------------------------------

  lemma RepeatedValueCount(s: seq<int>, i: int, j: int)
    requires 0 <= i < j < |s| && s[i] == s[j]
    ensures multiset(s)[s[i]] >= 2
  {
    var a, b := s[..j], s[j..];
    assert s == a + b;
    assert s[i] == a[i];
    assert s[j] == b[0];
    assert multiset(s) == multiset(a) + multiset(b);
  }

  /** A sorted sequence holding each value at most once is strictly increasing. */
  lemma SortedDistinct(s: seq<int>, keys: set<int>)
    requires Sorted(s) && multiset(s) == multiset(keys)
    ensures StrictlyIncreasing(s)
    ensures forall x :: x in s <==> x in keys
  {
    forall i, j | 0 <= i < j < |s| ensures s[i] < s[j] {
      if s[i] == s[j] {
        RepeatedValueCount(s, i, j);
        assert false;
      }
    }
    forall x ensures x in s <==> x in keys {
      assert x in s <==> x in multiset(s);
      assert x in keys <==> x in multiset(keys);
    }
  }

  lemma StrictlyIncreasingDistinct(s: seq<int>)
    requires StrictlyIncreasing(s)
    ensures NoDuplicates(s)
  {
  }

  /**
   * `getTimelineData`: for each file, compute its id; skip it when the id is
   * not an integer; otherwise start a list (and insert the id into the index)
   * on the id's first note, or splice the note in at index 0 (`sortDirection`)
   * or at the end. Returns the map and the index's in-order keys.
   */
  method GetTimelineData(fileList: seq<FileEntry>, settings: Settings, resolveImage: ImageResolver)
    returns (timelineNotes: TimelineNotes, timelineDates: seq<int>)
    ensures timelineNotes == Grouped(fileList, settings, resolveImage)
    ensures StrictlyIncreasing(timelineDates)
    ensures forall d :: d in timelineDates <==> d in timelineNotes
    ensures forall d :: d in timelineNotes ==>
      var notes := NotesWithId(fileList, settings, resolveImage, d);
      notes != [] && timelineNotes[d] == if settings.sortDirection then Reverse(notes) else notes
    ensures TotalNotes(timelineNotes, timelineDates) == CountWithId(fileList, settings)
  {
    timelineNotes := map[];
    var timelineTree := new BST();
    for i := 0 to |fileList|
      invariant timelineTree.Valid()
      invariant timelineNotes == Grouped(fileList[..i], settings, resolveImage)
      invariant Elements(timelineTree.root) == multiset(timelineNotes.Keys)
    {
      GroupedNext(fileList, i, settings, resolveImage);
      var file := fileList[i];
      var data := GetFrontmatterData(file.frontmatter, settings.frontmatterKeys, file.file);
      var noteId := EncodeId(data.startDate);
      if noteId.None? {
        continue;
      }
      var note := NoteFrom(file, data, resolveImage);
      timelineNotes := AddToTimeline(timelineTree, timelineNotes, noteId.value, note, settings.sortDirection);
    }
    assert fileList[..|fileList|] == fileList;
    timelineDates := timelineTree.InOrder();
    DatesFromIndex(fileList, settings, resolveImage, timelineNotes, timelineDates);
  }

  /**
   * One dated note into the timeline: on the id's first note start a list and
   * insert the id into the index; otherwise splice the note in at index 0
   * (`sortDirection`) or at the end.
   */
  method AddToTimeline(timelineTree: BST, timelineNotes: TimelineNotes, id: int, note: CardContainer, sortDirection: bool)
    returns (notes': TimelineNotes)
    requires timelineTree.Valid() && Elements(timelineTree.root) == multiset(timelineNotes.Keys)
    modifies timelineTree
    ensures timelineTree.Valid() && Elements(timelineTree.root) == multiset(notes'.Keys)
    ensures notes' == timelineNotes[id := AddNote(timelineNotes, id, note, sortDirection)]
  {
    if id !in timelineNotes {
      notes' := timelineNotes[id := [note]];
      NewKey(timelineNotes, id, [note]);
      timelineTree.Insert(id);
    } else {
      var notes := timelineNotes[id];
      var insertIndex := if sortDirection then 0 else |notes|;
      Splice(notes, note, sortDirection);
      notes' := timelineNotes[id := notes[..insertIndex] + [note] + notes[insertIndex..]];
    }
  }

  lemma NewKey(m: TimelineNotes, id: int, v: seq<CardContainer>)
    requires id !in m
    ensures multiset(m[id := v].Keys) == multiset(m.Keys) + multiset{id}
  {
    assert m[id := v].Keys == m.Keys + {id};
  }

  /** `splice(insertIndex, 0, note)` at index 0 or at the end. */
  lemma Splice(notes: seq<CardContainer>, note: CardContainer, atStart: bool)
    ensures var k := if atStart then 0 else |notes|;
      notes[..k] + [note] + notes[k..] == if atStart then [note] + notes else notes + [note]
  {
    if atStart {
      assert notes[..0] + [note] + notes[0..] == [note] + notes;
    } else {
      assert notes[..|notes|] + [note] + notes[|notes|..] == notes + [note];
    }
  }

  /** What the in-order keys of an index holding exactly the map's keys give. */
  lemma DatesFromIndex(fileList: seq<FileEntry>, settings: Settings, resolveImage: ImageResolver,
                       timelineNotes: TimelineNotes, timelineDates: seq<int>)
    requires timelineNotes == Grouped(fileList, settings, resolveImage)
    requires Sorted(timelineDates) && multiset(timelineDates) == multiset(timelineNotes.Keys)
    ensures StrictlyIncreasing(timelineDates)
    ensures forall d :: d in timelineDates <==> d in timelineNotes
    ensures forall d :: d in timelineNotes ==>
      var notes := NotesWithId(fileList, settings, resolveImage, d);
      notes != [] && timelineNotes[d] == if settings.sortDirection then Reverse(notes) else notes
    ensures TotalNotes(timelineNotes, timelineDates) == CountWithId(fileList, settings)
  {
    SortedDistinct(timelineDates, timelineNotes.Keys);
    forall d | d in timelineNotes
      ensures ListedAsGrouped(fileList, settings, resolveImage, d)
    {
      GroupedAt(fileList, settings, resolveImage, d);
    }
    StrictlyIncreasingDistinct(timelineDates);
    TotalNotesCount(fileList, settings, resolveImage, timelineDates);
    CountCovered(fileList, settings, resolveImage, timelineDates);
  }

  /**
   * A file without any start-date key is NOT skipped: its start date is "",
   * whose id is 0, so its note (empty date and title) is listed under id 0.
   */
  lemma UndatedNoteKeptAtZero(e: FileEntry, settings: Settings, resolveImage: ImageResolver)
    requires !AnyTruthy(e.frontmatter, settings.frontmatterKeys.startDateKey)
    ensures NoteIdOf(e, settings) == Some(0)
    ensures MakeNote(e, settings, resolveImage).date == "" && MakeNote(e, settings, resolveImage).title == ""
  {
    EmptyDateIsZero();
  }
}
