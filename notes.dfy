/** The list logic of the notes screen: saving a new or edited note,
    deleting one, the newest-first order the list is kept in, and the search
    filter. Timestamps are `Date.now()` milliseconds, passed in. */
module Notes {
  import opened Wrappers
  import opened Strings
  import opened Seqs
  import opened Sorting

  /** A stored note. `title` and `content` are optional because a stored
      list is parsed from JSON and the search filter reads them with `?.`. */
  datatype Note = Note(
    id: string,
    title: Option<string>,
    content: Option<string>,
    createdAt: nat,
    updatedAt: nat)

  // ---------------------------------------------------------------------
  // Order: `(a, b) => b.updatedAt - a.updatedAt`
  // ---------------------------------------------------------------------

  /** `a` may precede `b` when the comparator is not positive, that is when
      `a` was updated no earlier than `b`. */
  predicate NewestFirst(a: Note, b: Note) {
    b.updatedAt - a.updatedAt <= 0
  }

  lemma NewestFirstIsTotalPreorder()
    ensures TotalPreorder(NewestFirst)
  {
  }

  /** The list sorted newest first (a stable sort). */
  function ByRecency(notes: seq<Note>): (r: seq<Note>)
    ensures multiset(r) == multiset(notes)
    ensures forall i, j | 0 <= i < j < |r| :: r[i].updatedAt >= r[j].updatedAt
  {
    NewestFirstIsTotalPreorder();
    SortPermutes(notes, NewestFirst);
    SortSorts(notes, NewestFirst);
    InsertionSort(notes, NewestFirst)
  }

  /** The sorted list holds the same notes, with `updatedAt` never
      increasing, and notes updated at the same instant in their old order. */
  lemma ByRecencySemantics(notes: seq<Note>, z: Note)
    ensures multiset(ByRecency(notes)) == multiset(notes)
    ensures forall i, j :: 0 <= i < j < |ByRecency(notes)| ==>
      ByRecency(notes)[i].updatedAt >= ByRecency(notes)[j].updatedAt
    ensures EquivalenceClass(ByRecency(notes), z, NewestFirst)
         == EquivalenceClass(notes, z, NewestFirst)
  {
    NewestFirstIsTotalPreorder();
    SortPermutes(notes, NewestFirst);
    SortSorts(notes, NewestFirst);
    SortStable(notes, z, NewestFirst);
  }

  // ---------------------------------------------------------------------
  // saveNote
  // ---------------------------------------------------------------------

  /** `notes.map(...)` of an edit: the note with the edited id gets the new
      title, content and update time; every other note is left alone. */
  function Edited(notes: seq<Note>, id: string, title: string, content: string, now: nat)
    : (r: seq<Note>)
    ensures |r| == |notes|
    ensures forall i :: 0 <= i < |r| ==>
      r[i].id == notes[i].id && r[i].createdAt == notes[i].createdAt
    ensures forall i :: 0 <= i < |r| && notes[i].id == id ==>
      r[i].title == Some(title) && r[i].content == Some(content) && r[i].updatedAt == now
    ensures forall i :: 0 <= i < |r| && notes[i].id != id ==> r[i] == notes[i]
    decreases |notes|
  {
    if notes == [] then []
    else
      var n := notes[0];
      var first := if n.id == id then n.(title := Some(title), content := Some(content), updatedAt := now) else n;
      var rest := Edited(notes[1..], id, title, content, now);
      assert forall i :: 1 <= i < |notes| ==> notes[i] == notes[1..][i - 1];
      [first] + rest
  }

  /** The note a save creates when nothing is being edited. */
  function NewNote(title: string, content: string, now: nat): Note {
    Note(NatToString(now), Some(title), Some(content), now, now)
  }

  /** The list `saveNote` writes to storage, before it is sorted:
      `editing` is the note open in the editor, if any. */
  function Saved(notes: seq<Note>, editing: Option<Note>, title: string, content: string, now: nat)
    : (r: seq<Note>)
    ensures editing.Some? ==> |r| == |notes|
    ensures editing.None? ==> |r| == |notes| + 1
    ensures editing.None? ==> r[0] == NewNote(title, content, now) && r[1..] == notes
  {
    if editing.Some? then Edited(notes, editing.value.id, title, content, now)
    else [NewNote(title, content, now)] + notes
  }

  /** A list is in display order when it is sorted newest first. */
  predicate InDisplayOrder(notes: seq<Note>) {
    Sorted(notes, NewestFirst)
  }

  /** A note created at a time no earlier than every stored update lands on
      top of a list in display order, with the rest in place. */
  lemma NewNoteOnTop(notes: seq<Note>, title: string, content: string, now: nat)
    requires InDisplayOrder(notes)
    requires forall i :: 0 <= i < |notes| ==> notes[i].updatedAt <= now
    ensures ByRecency(Saved(notes, None, title, content, now))
         == [NewNote(title, content, now)] + notes
  {
    var s := [NewNote(title, content, now)] + notes;
    assert Sorted(s, NewestFirst) by {
      forall i, j | 0 <= i < j < |s| ensures NewestFirst(s[i], s[j]) {
        if i > 0 {
          assert s[i] == notes[i - 1] && s[j] == notes[j - 1];
        }
      }
    }
    SortOfSorted(s, NewestFirst);
  }

  /** Two distinct save times give two distinct new-note ids. */
  lemma NewNoteIdsDiffer(now1: nat, now2: nat, t1: string, c1: string, t2: string, c2: string)
    requires now1 != now2
    ensures NewNote(t1, c1, now1).id != NewNote(t2, c2, now2).id
  {
    if NatToString(now1) == NatToString(now2) {
      NatToStringInjective(now1, now2);
    }
  }

  /** What a save does: nothing when both fields are blank, otherwise the
      notes or an error when the write fails. */
  datatype SaveOutcome = Unchanged | SaveFailed | SavedList(written: seq<Note>)

  function SaveOutcomeOf(notes: seq<Note>, editing: Option<Note>, title: string, content: string,
                         now: nat, writeOk: bool): (o: SaveOutcome)
    ensures o.Unchanged? <==> IsBlank(title) && IsBlank(content)
    ensures o.SaveFailed? <==> !(IsBlank(title) && IsBlank(content)) && !writeOk
    ensures o.SavedList? ==> o.written == Saved(notes, editing, title, content, now)
  {
    TrimEmptyIffBlank(title);
    TrimEmptyIffBlank(content);
    if Trim(title) == "" && Trim(content) == "" then Unchanged
    else if !writeOk then SaveFailed
    else SavedList(Saved(notes, editing, title, content, now))
  }

  // ---------------------------------------------------------------------
  // deleteNote
  // ---------------------------------------------------------------------

  function OtherId(id: string): Note -> bool {
    (n: Note) => n.id != id
  }

  /** `notes.filter(n => n.id !== id)` */
  function WithoutId(notes: seq<Note>, id: string): (r: seq<Note>)
    ensures IsSubsequence(r, notes)
    ensures forall i | 0 <= i < |r| :: r[i].id != id
    ensures forall i | 0 <= i < |notes| && notes[i].id != id :: notes[i] in r
  {
    Filter(notes, OtherId(id))
  }

  /** Deleting removes every note with the id, keeps every other note as
      many times as before and in its order, and a second delete changes
      nothing. */
  lemma WithoutIdSemantics(notes: seq<Note>, id: string)
    ensures forall n :: multiset(WithoutId(notes, id))[n] == if n.id != id then multiset(notes)[n] else 0
    ensures IsSubsequence(WithoutId(notes, id), notes)
    ensures WithoutId(WithoutId(notes, id), id) == WithoutId(notes, id)
  {
    FilterMultiplicity(notes, OtherId(id));
    FilterAll(WithoutId(notes, id), OtherId(id));
  }

  /** Deleting keeps a list in display order. */
  lemma {:induction false} DeletePreservesOrder(notes: seq<Note>, id: string)
    requires InDisplayOrder(notes)
    ensures InDisplayOrder(WithoutId(notes, id))
    decreases |notes|
  {
    if notes != [] {
      var rest := notes[1..];
      OrderOfTail(notes);
      DeletePreservesOrder(rest, id);
      var r := WithoutId(rest, id);
      if notes[0].id != id {
        SubsequenceElements(r, rest);
        forall k | 0 <= k < |r| ensures NewestFirst(notes[0], r[k]) {
          assert r[k] in rest;
          var j :| 0 <= j < |rest| && rest[j] == r[k];
          assert notes[j + 1] == rest[j];
        }
        OrderOfCons(notes[0], r);
        assert WithoutId(notes, id) == [notes[0]] + r;
      }
    }
  }

  lemma OrderOfTail(notes: seq<Note>)
    requires notes != [] && InDisplayOrder(notes)
    ensures InDisplayOrder(notes[1..])
  {
    var rest := notes[1..];
    forall i, j | 0 <= i < j < |rest| ensures NewestFirst(rest[i], rest[j]) {
      assert rest[i] == notes[i + 1] && rest[j] == notes[j + 1];
    }
  }

  lemma OrderOfCons(n: Note, r: seq<Note>)
    requires InDisplayOrder(r)
    requires forall k :: 0 <= k < |r| ==> NewestFirst(n, r[k])
    ensures InDisplayOrder([n] + r)
  {
    var w := [n] + r;
    forall i, j | 0 <= i < j < |w| ensures NewestFirst(w[i], w[j]) {
      if i > 0 {
        assert w[i] == r[i - 1] && w[j] == r[j - 1];
      } else {
        assert w[j] == r[j - 1];
      }
    }
  }

  // ---------------------------------------------------------------------
  // filteredNotes
  // ---------------------------------------------------------------------

  /** `s?.toLowerCase().includes(q.toLowerCase())`: false when `s` is
      missing. */
  predicate FieldMatches(s: Option<string>, query: string) {
    s.Some? && Contains(Lower(s.value), Lower(query))
  }

  predicate NoteMatches(n: Note, query: string) {
    FieldMatches(n.title, query) || FieldMatches(n.content, query)
  }

  function MatchesQuery(query: string): Note -> bool {
    n => NoteMatches(n, query)
  }

  /** `filteredNotes` */
  function FilteredNotes(notes: seq<Note>, query: string): (r: seq<Note>)
    ensures IsSubsequence(r, notes)
    ensures forall i :: 0 <= i < |r| ==> NoteMatches(r[i], query)
    ensures forall i :: 0 <= i < |notes| && NoteMatches(notes[i], query) ==> notes[i] in r
  {
    Filter(notes, MatchesQuery(query))
  }

  predicate HasText(n: Note) {
    n.title.Some? || n.content.Some?
  }

  /** The empty query keeps exactly the notes that have a title or a
      content. */
  lemma EmptyQueryKeepsNotesWithText(notes: seq<Note>)
    ensures FilteredNotes(notes, "") == Filter(notes, n => HasText(n))
  {
    forall i | 0 <= i < |notes|
      ensures MatchesQuery("")(notes[i]) == HasText(notes[i])
    {
      var n := notes[i];
      assert Lower("") == "";
      if n.title.Some? { ContainsEmpty(Lower(n.title.value)); }
      if n.content.Some? { ContainsEmpty(Lower(n.content.value)); }
    }
    FilterCongruent(notes, MatchesQuery(""), n => HasText(n));
  }

  /** The search ignores the letter case of the query. */
  lemma FilterIgnoresQueryCase(notes: seq<Note>, q1: string, q2: string)
    requires Lower(q1) == Lower(q2)
    ensures FilteredNotes(notes, q1) == FilteredNotes(notes, q2)
  {
    FilterCongruent(notes, MatchesQuery(q1), MatchesQuery(q2));
  }

  // ---------------------------------------------------------------------
  // The screen state
  // ---------------------------------------------------------------------

  class NotesScreen {
    /** The `notes` state. */
    var notes: seq<Note>
    /** The value last written under `user-notes`, if any. */
    var stored: Option<seq<Note>>

    constructor (saved: Option<seq<Note>>)
      ensures notes == [] && stored == saved
    {
      notes := [];
      stored := saved;
    }

    /** `loadNotes`: shows the saved list newest first. `readOk` is whether
        `getItem` succeeds; a failed read is logged and changes nothing. */
    method LoadNotes(readOk: bool)
      modifies this
      ensures stored == old(stored)
      ensures readOk && stored.Some? ==> notes == ByRecency(stored.value)
      ensures !readOk || stored.None? ==> notes == old(notes)
    {
      if !readOk {
        return;
      }
      if stored.Some? {
        notes := SortedNewestFirst(stored.value);
      }
    }

    /** `saveNote` with the editor holding `title` and `content`; `writeOk`
        is whether `setItem` succeeds. Storage receives the list before the
        in-place sort; the state shows it sorted. */
    method SaveNote(editing: Option<Note>, title: string, content: string, now: nat, writeOk: bool)
      returns (outcome: SaveOutcome)
      modifies this
      ensures outcome == SaveOutcomeOf(old(notes), editing, title, content, now, writeOk)
      ensures outcome.SavedList? ==> stored == Some(outcome.written) && notes == ByRecency(outcome.written)
      ensures !outcome.SavedList? ==> notes == old(notes) && stored == old(stored)
      ensures InDisplayOrder(notes) || notes == old(notes)
    {
      if Trim(title) == "" && Trim(content) == "" {
        return Unchanged;
      }
      var newNotes: seq<Note>;
      if editing.Some? {
        newNotes := Edited(notes, editing.value.id, title, content, now);
      } else {
        newNotes := [NewNote(title, content, now)] + notes;
      }
      if !writeOk {
        return SaveFailed;
      }
      stored := Some(newNotes);
      notes := SortedNewestFirst(newNotes);
      NewestFirstIsTotalPreorder();
      SortSorts(newNotes, NewestFirst);
      outcome := SavedList(newNotes);
    }

    /** The confirmed `deleteNote(id)`; `writeOk` is whether `setItem`
        succeeds. A failed write rejects before the state is set. */
    method DeleteNote(id: string, writeOk: bool)
      modifies this
      ensures writeOk ==> notes == WithoutId(old(notes), id) && stored == Some(notes)
      ensures !writeOk ==> notes == old(notes) && stored == old(stored)
    {
      var newNotes := WithoutId(notes, id);
      if writeOk {
        stored := Some(newNotes);
        notes := newNotes;
      }
    }
  }

  /** `list.sort(newest first)` on a fresh array. */
  method SortedNewestFirst(list: seq<Note>) returns (r: seq<Note>)
    ensures r == ByRecency(list)
  {
    var a := new Note[|list|](i requires 0 <= i < |list| => list[i]);
    assert a[..] == list;
    SortInPlace(a, NewestFirst);
    r := a[..];
  }
}
