/**
 * The course-notes screen: the `created_at` sort, the search and tag
 * filter chain that derives the visible list, tag parsing for a new note,
 * the deduplicated tag list, and the screen state that these feed.
 */
module CourseNotes {
  import opened Wrappers
  import opened Text
  import opened StableSort

  /** A row of the `course_notes` table. A null title, content or tag list is read as '' or []
      everywhere the screen touches it, so the model stores those defaults. */
  datatype Note = Note(id: int, title: string, content: string, tags: seq<string>, isDone: bool, createdAt: int)

  datatype SortOrder = Newest | Oldest

  /** The row `addNote` submits. */
  datatype NoteInsert = NoteInsert(title: string, content: string, tags: seq<string>, isDone: bool, userId: UserId)

  /** The partial update `toggleDone` submits for one id. */
  datatype DoneUpdate = DoneUpdate(id: int, isDone: bool)

  // ---------------------------------------------------------------- sorting

  /** The comparator `bDate - aDate` ('newest') is the ascending order of the negated time. */
  function SortKey(order: SortOrder): Note -> int {
    match order
    case Newest => (n: Note) => -n.createdAt
    case Oldest => (n: Note) => n.createdAt
  }

  /** `sortNotes`: a sorted copy; the input list itself is a value and cannot change. */
  function SortNotes(notes: seq<Note>, order: SortOrder): (r: seq<Note>)
    ensures multiset(r) == multiset(notes)
    ensures order == Newest ==> forall i, j :: 0 <= i < j < |r| ==> r[i].createdAt >= r[j].createdAt
    ensures order == Oldest ==> forall i, j :: 0 <= i < j < |r| ==> r[i].createdAt <= r[j].createdAt
  {
    SortSorted(notes, SortKey(order));
    Sort(notes, SortKey(order))
  }

  /** Without two notes created at the same time, 'newest' shows exactly the reverse of 'oldest'. */
  lemma SortNotesReverse(notes: seq<Note>)
    requires forall i, j :: 0 <= i < j < |notes| ==> notes[i].createdAt != notes[j].createdAt
    ensures SortNotes(notes, Newest) == Reverse(SortNotes(notes, Oldest))
  {
    assert DistinctKeys(notes, SortKey(Oldest));
    SortOppositeKeys(notes, SortKey(Oldest), SortKey(Newest));
  }

  /** Selects the notes created at time `t`. */
  function CreatedAt(t: int): Note -> bool {
    (n: Note) => n.createdAt == t
  }

  /** Ties keep their input order: the notes sharing a timestamp appear in the same relative order. */
  lemma SortNotesStable(notes: seq<Note>, order: SortOrder, t: int)
    ensures Filter(SortNotes(notes, order), CreatedAt(t)) == Filter(notes, CreatedAt(t))
  {
    var key := SortKey(order);
    var k := if order == Newest then -t else t;
    SortStable(notes, key, k);
    FilterCongruence(SortNotes(notes, order), HasKey(key, k), CreatedAt(t));
    FilterCongruence(notes, HasKey(key, k), CreatedAt(t));
  }

  // -------------------------------------------------------------- filtering

  /** A note matches a lower-cased search term through its title, its content or one of its tags. */
  predicate MatchesSearch(n: Note, term: string) {
    Contains(Lower(n.title), term) || Contains(Lower(n.content), term)
    || exists i :: 0 <= i < |n.tags| && Contains(Lower(n.tags[i]), term)
  }

  /** `if (selectedTag)`: null and the empty string are falsy. */
  predicate TagSelected(selectedTag: Option<string>) {
    selectedTag.Some? && selectedTag.value != ""
  }

  /** `filterNotes`: sort, then the search filter if the trimmed search is non-empty (matching with
      the untrimmed lower-cased search), then the exact-tag filter if a tag is selected. */
  function FilterNotes(notes: seq<Note>, search: string, selectedTag: Option<string>, order: SortOrder): seq<Note> {
    var sorted := SortNotes(notes, order);
    var searched := if !IsBlank(search) then Filter(sorted, (n: Note) => MatchesSearch(n, Lower(search))) else sorted;
    if TagSelected(selectedTag) then
      var tag := selectedTag.value;
      Filter(searched, (n: Note) => tag in n.tags)
    else searched
  }

  /** The single condition under which a note stays visible. */
  function KeepNote(search: string, selectedTag: Option<string>): Note -> bool {
    n => (IsBlank(search) || MatchesSearch(n, Lower(search)))
         && (!TagSelected(selectedTag) || selectedTag.value in n.tags)
  }

  /** With a blank search and no tag the visible list is exactly the sorted list. */
  lemma FilterNotesNoCriteria(notes: seq<Note>, search: string, selectedTag: Option<string>, order: SortOrder)
    requires IsBlank(search) && !TagSelected(selectedTag)
    ensures FilterNotes(notes, search, selectedTag, order) == SortNotes(notes, order)
  {
  }

  /** Filtering and then sorting the raw notes gives the same list as the screen's sort-then-filter. */
  lemma FilterNotesIsSortedSelection(notes: seq<Note>, search: string, selectedTag: Option<string>, order: SortOrder)
    ensures FilterNotes(notes, search, selectedTag, order)
         == SortNotes(Filter(notes, KeepNote(search, selectedTag)), order)
  {
    var key := SortKey(order);
    var keep := KeepNote(search, selectedTag);
    var s := (n: Note) => MatchesSearch(n, Lower(search));
    if !IsBlank(search) && TagSelected(selectedTag) {
      var tag := selectedTag.value;
      var t := (n: Note) => tag in n.tags;
      FilterFilter(Sort(notes, key), s, t);
      FilterSortCommute(notes, key, Both(s, t));
      FilterCongruence(notes, Both(s, t), keep);
    } else if !IsBlank(search) {
      FilterSortCommute(notes, key, s);
      FilterCongruence(notes, s, keep);
    } else if TagSelected(selectedTag) {
      var tag := selectedTag.value;
      var t := (n: Note) => tag in n.tags;
      FilterSortCommute(notes, key, t);
      FilterCongruence(notes, t, keep);
    } else {
      FilterKeepsAll(notes, keep);
    }
  }

  /** A note is visible iff it is stored, passes the search (when there is one) and carries the
      selected tag (when there is one). */
  lemma FilterNotesMembership(notes: seq<Note>, search: string, selectedTag: Option<string>, order: SortOrder, n: Note)
    ensures n in FilterNotes(notes, search, selectedTag, order)
        <==> n in notes
             && (IsBlank(search) || MatchesSearch(n, Lower(search)))
             && (!TagSelected(selectedTag) || selectedTag.value in n.tags)
  {
    var keep := KeepNote(search, selectedTag);
    FilterNotesIsSortedSelection(notes, search, selectedTag, order);
    var f := Filter(notes, keep);
    assert n in SortNotes(f, order) <==> n in multiset(f);
    FilterMembership(notes, keep, n);
  }

  /** The visible list keeps the order of the sorted list: it only drops notes. */
  lemma FilterNotesSubsequence(notes: seq<Note>, search: string, selectedTag: Option<string>, order: SortOrder)
    ensures IsSubsequence(FilterNotes(notes, search, selectedTag, order), SortNotes(notes, order))
  {
    var sorted := SortNotes(notes, order);
    var s := (n: Note) => MatchesSearch(n, Lower(search));
    var searched := if !IsBlank(search) then Filter(sorted, s) else sorted;
    if !IsBlank(search) {
      FilterIsSubsequence(sorted, s);
    } else {
      SubsequenceReflexive(sorted);
    }
    if TagSelected(selectedTag) {
      var tag := selectedTag.value;
      FilterIsSubsequence(searched, (n: Note) => tag in n.tags);
      SubsequenceTransitive(FilterNotes(notes, search, selectedTag, order), searched, sorted);
    }
  }

  /** Re-running the pipeline on its own output changes nothing. */
  lemma FilterNotesIdempotent(notes: seq<Note>, search: string, selectedTag: Option<string>, order: SortOrder)
    ensures FilterNotes(FilterNotes(notes, search, selectedTag, order), search, selectedTag, order)
         == FilterNotes(notes, search, selectedTag, order)
  {
    var key := SortKey(order);
    var keep := KeepNote(search, selectedTag);
    var once := FilterNotes(notes, search, selectedTag, order);
    var f := Filter(notes, keep);
    FilterNotesIsSortedSelection(notes, search, selectedTag, order);
    FilterNotesIsSortedSelection(once, search, selectedTag, order);
    FilterSortCommute(f, key, keep);
    FilterIdempotent(notes, keep);
    SortIdempotent(f, key);
  }

  // ----------------------------------------------------------------- tags

  /** Trims every piece. */
  function TrimAll(xs: seq<string>): (r: seq<string>)
    ensures |r| == |xs|
  {
    if xs == [] then [] else [Trim(xs[0])] + TrimAll(xs[1..])
  }

  /** `.filter(Boolean)` on strings: drops the empty ones. */
  function DropEmpty(xs: seq<string>): (r: seq<string>)
    ensures forall i :: 0 <= i < |r| ==> r[i] != []
  {
    if xs == [] then [] else (if xs[0] == [] then [] else [xs[0]]) + DropEmpty(xs[1..])
  }

  /** The tag-string parsing in `addNote`: split on ',', trim each piece, drop the empty ones. */
  function ParseTags(input: string): (r: seq<string>)
    ensures forall i :: 0 <= i < |r| ==> r[i] != [] && Trimmed(r[i])
  {
    TrimAllTrimmed(Split(input, ','));
    DropEmptyKeeps(TrimAll(Split(input, ',')));
    DropEmpty(TrimAll(Split(input, ',')))
  }

  lemma {:induction false} TrimAllTrimmed(xs: seq<string>)
    ensures forall i :: 0 <= i < |xs| ==> Trimmed(TrimAll(xs)[i])
  {
    if xs != [] {
      var r := TrimAll(xs);
      var rest := TrimAll(xs[1..]);
      assert r == [Trim(xs[0])] + rest;
      TrimAllTrimmed(xs[1..]);
      forall i | 1 <= i < |xs| ensures Trimmed(r[i]) {
        assert r[i] == rest[i - 1];
      }
    }
  }

  lemma {:induction false} DropEmptyKeeps(xs: seq<string>)
    ensures forall i :: 0 <= i < |DropEmpty(xs)| ==> DropEmpty(xs)[i] in xs
  {
    if xs != [] {
      DropEmptyKeeps(xs[1..]);
    }
  }

  lemma {:induction false} TrimAllAppend(a: seq<string>, b: seq<string>)
    ensures TrimAll(a + b) == TrimAll(a) + TrimAll(b)
  {
    if a != [] {
      TrimAllAppend(a[1..], b);
      assert (a + b)[1..] == a[1..] + b;
    } else {
      assert a + b == b;
    }
  }

  lemma {:induction false} DropEmptyAppend(a: seq<string>, b: seq<string>)
    ensures DropEmpty(a + b) == DropEmpty(a) + DropEmpty(b)
  {
    if a != [] {
      DropEmptyAppend(a[1..], b);
      assert (a + b)[1..] == a[1..] + b;
    } else {
      assert a + b == b;
    }
  }

  /** Parsing keeps the input order and the duplicates: the tags of two comma-separated parts are
      the tags of the first followed by the tags of the second. */
  lemma ParseTagsAppend(a: string, b: string)
    ensures ParseTags(a + [','] + b) == ParseTags(a) + ParseTags(b)
  {
    SplitAround(a, b, ',');
    TrimAllAppend(Split(a, ','), Split(b, ','));
    DropEmptyAppend(TrimAll(Split(a, ',')), TrimAll(Split(b, ',')));
  }

  /**
   * A piece with no comma is trimmed and kept unless it is blank; with
   * `ParseTagsAppend` this fixes the parse of every input.
   */
  lemma ParseOnePiece(p: string)
    requires ',' !in p
    ensures ParseTags(p) == (if IsBlank(p) then [] else [Trim(p)])
  {
    SplitWithoutSeparator(p, ',');
    var t := Trim(p);
    assert TrimAll([p]) == [t];
    assert [t][1..] == [];
    assert DropEmpty([t]) == (if t == [] then [] else [t]) + DropEmpty([]);
  }

  /** Two comma-separated pieces that are not blank give their two trimmed tags, in order. */
  lemma ParseTwoPieces(a: string, b: string)
    requires ',' !in a && ',' !in b && !IsBlank(a) && !IsBlank(b)
    ensures ParseTags(a + [','] + b) == [Trim(a), Trim(b)]
  {
    ParseTagsAppend(a, b);
    ParseOnePiece(a);
    ParseOnePiece(b);
  }

  /** A tag the form would store unchanged. */
  predicate CleanTag(t: string) {
    t != [] && Trimmed(t) && ',' !in t
  }

  lemma ParseCleanTag(t: string)
    requires CleanTag(t)
    ensures ParseTags(t) == [t]
  {
    SplitWithoutSeparator(t, ',');
    TrimOfTrimmed(t);
    assert TrimAll([t]) == [t];
    assert DropEmpty([t]) == [t];
  }

  /** Joining clean tags with ',' and parsing the result gives the tags back. */
  lemma {:induction false} ParseJoinedTags(tags: seq<string>)
    requires forall i :: 0 <= i < |tags| ==> CleanTag(tags[i])
    ensures ParseTags(Join(tags, ',')) == tags
  {
    if |tags| == 1 {
      ParseCleanTag(tags[0]);
    } else if |tags| > 1 {
      var rest := tags[1..];
      assert tags == [tags[0]] + rest;
      JoinCons(tags[0], rest, ',');
      ParseTagsAppend(tags[0], Join(rest, ','));
      ParseCleanTag(tags[0]);
      assert forall i :: 0 <= i < |rest| ==> CleanTag(rest[i]) by {
        forall i | 0 <= i < |rest| ensures CleanTag(rest[i]) {
          assert rest[i] == tags[i + 1];
        }
      }
      ParseJoinedTags(rest);
    }
  }

  /** `notes.flatMap(n => n.tags || [])`. */
  function FlatTags(notes: seq<Note>): seq<string> {
    if notes == [] then [] else notes[0].tags + FlatTags(notes[1..])
  }

  lemma {:induction false} FlatTagsMembership(notes: seq<Note>, t: string)
    ensures t in FlatTags(notes) <==> exists i :: 0 <= i < |notes| && t in notes[i].tags
  {
    if notes != [] {
      FlatTagsMembership(notes[1..], t);
      if t in FlatTags(notes[1..]) {
        var i :| 0 <= i < |notes[1..]| && t in notes[1..][i].tags;
        assert t in notes[i + 1].tags;
      }
    }
  }

  predicate NoDuplicates(xs: seq<string>) {
    forall i, j :: 0 <= i < j < |xs| ==> xs[i] != xs[j]
  }

  /** `Array.from(new Set(xs))`: each distinct element once, in order of first insertion. */
  function Dedup(xs: seq<string>): (r: seq<string>)
    ensures NoDuplicates(r)
    ensures forall t :: t in r <==> t in xs
  {
    if xs == [] then []
    else
      var d := Dedup(xs[..|xs| - 1]);
      var last := xs[|xs| - 1];
      assert xs == xs[..|xs| - 1] + [last];
      if last in d then d else d + [last]
  }

  /** The position of the first occurrence of `t`. */
  function FirstIndex(xs: seq<string>, t: string): (k: nat)
    requires t in xs
    ensures k < |xs| && xs[k] == t && t !in xs[..k]
  {
    if xs[0] == t then 0 else 1 + FirstIndex(xs[1..], t)
  }

  lemma {:induction false} FirstIndexExtend(p: seq<string>, x: string, t: string)
    requires t in p + [x]
    ensures t in p ==> FirstIndex(p + [x], t) == FirstIndex(p, t)
    ensures t !in p ==> FirstIndex(p + [x], t) == |p|
  {
    if p != [] && p[0] != t {
      assert (p + [x])[1..] == p[1..] + [x];
      FirstIndexExtend(p[1..], x, t);
    }
  }

  /** Deduplication keeps the order of first occurrence. */
  lemma {:induction false} DedupFirstOccurrenceOrder(xs: seq<string>)
    ensures forall i, j :: 0 <= i < j < |Dedup(xs)| ==> FirstIndex(xs, Dedup(xs)[i]) < FirstIndex(xs, Dedup(xs)[j])
  {
    if xs != [] {
      var p := xs[..|xs| - 1];
      var last := xs[|xs| - 1];
      var d := Dedup(p);
      assert xs == p + [last];
      DedupFirstOccurrenceOrder(p);
      forall t | t in d ensures FirstIndex(xs, t) == FirstIndex(p, t) {
        FirstIndexExtend(p, last, t);
      }
      if last !in d {
        FirstIndexExtend(p, last, last);
        var r := d + [last];
        forall i, j | 0 <= i < j < |r| ensures FirstIndex(xs, r[i]) < FirstIndex(xs, r[j]) {
          assert r[i] in d;
          if j < |d| {
            assert r[j] in d;
          }
        }
      }
    }
  }

  /** `allTags`: no tag twice, every tag of every note, first-occurrence order over the notes. */
  function AllTags(notes: seq<Note>): (r: seq<string>)
    ensures NoDuplicates(r)
    ensures forall t :: t in r <==> exists i :: 0 <= i < |notes| && t in notes[i].tags
  {
    forall t ensures t in FlatTags(notes) <==> exists i :: 0 <= i < |notes| && t in notes[i].tags {
      FlatTagsMembership(notes, t);
    }
    Dedup(FlatTags(notes))
  }

  // --------------------------------------------------------- toggling done

  /** `toggleDone`: the update written for a note is the negation of its flag. */
  function ToggleDone(note: Note): (u: DoneUpdate)
    ensures u.id == note.id && u.isDone == !note.isDone
  {
    DoneUpdate(note.id, !note.isDone)
  }

  /** What the store does with a `DoneUpdate` to one row. */
  function ApplyDone(u: DoneUpdate): Note -> Note {
    (n: Note) => if n.id == u.id then n.(isDone := u.isDone) else n
  }

  /** Toggling a note and then toggling the refreshed note restores the row. */
  lemma ToggleTwice(n: Note)
    ensures var once := ApplyDone(ToggleDone(n))(n); ApplyDone(ToggleDone(once))(once) == n
  {
  }

  /** A toggle applied to the whole collection leaves every note at its place in the sorted list. */
  lemma ToggleKeepsPosition(notes: seq<Note>, order: SortOrder, u: DoneUpdate)
    ensures SortNotes(Map(notes, ApplyDone(u)), order) == Map(SortNotes(notes, order), ApplyDone(u))
  {
    SortMap(notes, SortKey(order), ApplyDone(u));
  }

  // ---------------------------------------------------------------- screen

  /** The state of the course-notes screen. */
  class CourseScreen {
    var notes: seq<Note>
    var filteredNotes: seq<Note>
    var search: string
    var selectedTag: Option<string>
    var sortOrder: SortOrder
    var title: string
    var content: string
    var tags: string
    var modalVisible: bool

    /** The effect that re-runs `filterNotes` whenever `search`, `selectedTag`, `notes` or
        `sortOrder` changes keeps the visible list derived from them. */
    predicate Valid()
      reads this
    {
      filteredNotes == FilterNotes(notes, search, selectedTag, sortOrder)
    }

    constructor ()
      ensures Valid()
      ensures notes == [] && filteredNotes == [] && search == "" && selectedTag == None && sortOrder == Newest
      ensures title == "" && content == "" && tags == "" && !modalVisible
    {
      notes, filteredNotes := [], [];
      search, selectedTag, sortOrder := "", None, Newest;
      title, content, tags := "", "", "";
      modalVisible := false;
    }

    /** Typing in the search box. */
    method SetSearch(s: string)
      requires Valid()
      modifies this
      ensures Valid()
      ensures search == s && filteredNotes == FilterNotes(notes, s, selectedTag, sortOrder)
      ensures notes == old(notes) && selectedTag == old(selectedTag) && sortOrder == old(sortOrder)
      ensures title == old(title) && content == old(content) && tags == old(tags) && modalVisible == old(modalVisible)
    {
      search := s;
      filteredNotes := FilterNotes(notes, search, selectedTag, sortOrder);
    }

    /** The Newest / Oldest buttons. */
    method SetSortOrder(o: SortOrder)
      requires Valid()
      modifies this
      ensures Valid()
      ensures sortOrder == o && filteredNotes == FilterNotes(notes, search, selectedTag, o)
      ensures notes == old(notes) && search == old(search) && selectedTag == old(selectedTag)
      ensures title == old(title) && content == old(content) && tags == old(tags) && modalVisible == old(modalVisible)
    {
      sortOrder := o;
      filteredNotes := FilterNotes(notes, search, selectedTag, sortOrder);
    }

    /** `fetchNotes` with the signed-in user (if any) and the store's answer: on success the
        collection is replaced by its sorted copy; without a user or on an error nothing changes. */
    method FetchNotes(user: Option<UserId>, response: Result<seq<Note>>)
      requires Valid()
      modifies this
      ensures Valid()
      ensures notes == (if user.Some? && response.Ok? then SortNotes(response.value, sortOrder) else old(notes))
      ensures filteredNotes == FilterNotes(notes, search, selectedTag, sortOrder)
      ensures search == old(search) && selectedTag == old(selectedTag) && sortOrder == old(sortOrder)
      ensures title == old(title) && content == old(content) && tags == old(tags) && modalVisible == old(modalVisible)
    {
      if user.None? || response.Err? {
        // no user: nothing happens; an error is reported to the user and the state is kept
        return;
      }
      ghost var search0, tag0, order0 := search, selectedTag, sortOrder;
      var sorted := SortNotes(response.value, sortOrder);
      notes := sorted;
      filteredNotes := sorted;
      // the filter effect runs again because `notes` changed
      filteredNotes := FilterNotes(notes, search, selectedTag, sortOrder);
      assert search == search0 && selectedTag == tag0 && sortOrder == order0;
    }

    /** `addNote`: returns the row submitted to the store (none when the content is blank or no
        user is signed in) and whether a refresh follows. The title is not checked. */
    method AddNote(user: Option<UserId>, response: Outcome) returns (request: Option<NoteInsert>, refresh: bool)
      requires Valid()
      modifies this
      ensures Valid()
      ensures request.Some? <==> !IsBlank(old(content)) && user.Some?
      ensures request.Some? ==> request.value == NoteInsert(old(title), old(content), ParseTags(old(tags)), false, user.value)
      ensures refresh <==> request.Some? && response.Success?
      ensures refresh ==> title == "" && content == "" && tags == "" && !modalVisible
      ensures !refresh ==> title == old(title) && content == old(content) && tags == old(tags) && modalVisible == old(modalVisible)
      ensures notes == old(notes) && filteredNotes == old(filteredNotes)
      ensures search == old(search) && selectedTag == old(selectedTag) && sortOrder == old(sortOrder)
    {
      request, refresh := None, false;
      if IsBlank(content) {
        return;
      }
      if user.None? {
        return;
      }
      var tagsArray := ParseTags(tags);
      request := Some(NoteInsert(title, content, tagsArray, false, user.value));
      if response.Success? {
        ClearForm();
        refresh := true;
      }
    }

    /** After a successful insert the form is emptied and the modal closes. */
    method ClearForm()
      requires Valid()
      modifies this
      ensures Valid()
      ensures title == "" && content == "" && tags == "" && !modalVisible
      ensures notes == old(notes) && filteredNotes == old(filteredNotes)
      ensures search == old(search) && selectedTag == old(selectedTag) && sortOrder == old(sortOrder)
    {
      title, content, tags := "", "", "";
      modalVisible := false;
    }
  }
}
