/**
 The note grid (src/components/NoteGrid.tsx): which notes are shown for the
 selected view and search text, and how they are split into the pinned group
 and the group of the others.
 */
module NoteGrid {
  import opened Types
  import Seqs
  import Text
  import NoteStore

  /** The view stage's test for one note. */
  predicate InView(n: Note, v: View)
  {
    match v
    case Notes => !n.isArchived && !n.isDeleted
    case Archive => n.isArchived && !n.isDeleted
    case Trash => n.isDeleted
    case Labels => !n.isArchived && !n.isDeleted
  }

  /** The notes the selected view shows, in list order. */
  function ViewStage(notes: seq<Note>, v: View): (r: seq<Note>)
    ensures Seqs.IsSubsequence(r, notes)
    ensures v == Notes || v == Labels ==>
      forall n :: n in r <==> n in notes && !n.isArchived && !n.isDeleted
    ensures v == Archive ==>
      forall n :: n in r <==> n in notes && n.isArchived && !n.isDeleted
    ensures v == Trash ==>
      forall n :: n in r <==> n in notes && n.isDeleted
    ensures forall n :: multiset(r)[n] == if InView(n, v) then multiset(notes)[n] else 0
  {
    var r := Seqs.Filter(notes, (n: Note) => InView(n, v));
    assert forall n :: multiset(r)[n] == if InView(n, v) then multiset(notes)[n] else 0 by {
      forall n {
        Seqs.FilterCount(notes, (n: Note) => InView(n, v), n);
      }
    }
    r
  }

  /** The search test: the lower-cased title or content contains the
      lower-cased query. */
  predicate Matches(n: Note, query: string)
  {
    || Text.Includes(Text.Lower(n.title), Text.Lower(query))
    || Text.Includes(Text.Lower(n.content), Text.Lower(query))
  }

  /** The search stage: an empty query keeps everything. */
  function SearchStage(notes: seq<Note>, query: string): (r: seq<Note>)
    ensures query == [] ==> r == notes
    ensures Seqs.IsSubsequence(r, notes)
    ensures query != [] ==> forall n :: n in r <==> n in notes && Matches(n, query)
    ensures forall n :: multiset(r)[n] == if query == [] || Matches(n, query) then multiset(notes)[n] else 0
  {
    if query == [] then
      Seqs.SubsequenceReflexive(notes);
      notes
    else
      var r := Seqs.Filter(notes, (n: Note) => Matches(n, query));
      assert forall n :: multiset(r)[n] == if Matches(n, query) then multiset(notes)[n] else 0 by {
        forall n {
          Seqs.FilterCount(notes, (n: Note) => Matches(n, query), n);
        }
      }
      r
  }

  /** `filterNotes`: the view stage followed by the search stage. */
  function FilterNotes(notes: seq<Note>, v: View, query: string): (r: seq<Note>)
    ensures Seqs.IsSubsequence(r, notes)
    ensures forall n :: n in r <==> n in notes && InView(n, v) && (query == [] || Matches(n, query))
    ensures forall n ::
      multiset(r)[n] == if InView(n, v) && (query == [] || Matches(n, query)) then multiset(notes)[n] else 0
  {
    var viewed := ViewStage(notes, v);
    var r := SearchStage(viewed, query);
    Seqs.SubsequenceTransitive(r, viewed, notes);
    r
  }

  /** What the grid shows: the pinned group above the group of the others. */
  datatype Groups = Groups(pinned: seq<Note>, unpinned: seq<Note>)

  /** The pinned group of the notes view. */
  function PinnedOf(notes: seq<Note>): seq<Note>
  {
    Seqs.Filter(notes, (n: Note) => n.isPinned)
  }

  /** The unpinned group of the notes view. */
  function UnpinnedOf(notes: seq<Note>): seq<Note>
  {
    Seqs.Filter(notes, (n: Note) => !n.isPinned)
  }

  /** The grid's two groups. Only the notes view separates pinned notes;
      every other view shows all of its notes as one group. */
  function Visible(notes: seq<Note>, v: View, query: string): (g: Groups)
    ensures var f := FilterNotes(notes, v, query);
      v == Notes ==>
        && Seqs.IsSubsequence(g.pinned, f)
        && Seqs.IsSubsequence(g.unpinned, f)
        && (forall n :: n in g.pinned <==> n in f && n.isPinned)
        && (forall n :: n in g.unpinned <==> n in f && !n.isPinned)
        && |g.pinned| + |g.unpinned| == |f|
        && multiset(g.pinned) + multiset(g.unpinned) == multiset(f)
    ensures v != Notes ==> g.pinned == [] && g.unpinned == FilterNotes(notes, v, query)
  {
    var f := FilterNotes(notes, v, query);
    if v == Notes then
      Seqs.FilterSplit(f, (n: Note) => n.isPinned, (n: Note) => !n.isPinned);
      Groups(PinnedOf(f), UnpinnedOf(f))
    else
      Groups([], f)
  }

  /** No note is shown in more than one of the notes, archive and trash
      views, and every note is shown in one of them. */
  lemma ViewsPartition(n: Note)
    ensures InView(n, Notes) || InView(n, Archive) || InView(n, Trash)
    ensures !(InView(n, Notes) && InView(n, Archive))
    ensures !(InView(n, Notes) && InView(n, Trash))
    ensures !(InView(n, Archive) && InView(n, Trash))
  {
  }

  /** Counted with multiplicity, the notes, archive and trash views together
      show every note of the list exactly once. */
  lemma ViewsCoverList(notes: seq<Note>)
    ensures multiset(ViewStage(notes, Notes)) + multiset(ViewStage(notes, Archive))
            + multiset(ViewStage(notes, Trash)) == multiset(notes)
  {
    var shown := multiset(ViewStage(notes, Notes)) + multiset(ViewStage(notes, Archive))
                 + multiset(ViewStage(notes, Trash));
    forall n
      ensures shown[n] == multiset(notes)[n]
    {
      ViewsPartition(n);
    }
  }

  /** The labels view shows what the notes view shows. */
  lemma LabelsIsNotes(notes: seq<Note>)
    ensures ViewStage(notes, Labels) == ViewStage(notes, Notes)
  {
    Seqs.FilterExtensional(notes, (n: Note) => InView(n, Labels), (n: Note) => InView(n, Notes));
  }

  /** The search ignores the case of the query's ASCII letters. */
  lemma SearchIgnoresQueryCase(notes: seq<Note>, v: View, query: string)
    ensures FilterNotes(notes, v, Text.Lower(query)) == FilterNotes(notes, v, query)
  {
    Text.LowerIdempotent(query);
    Seqs.FilterExtensional(ViewStage(notes, v),
      (n: Note) => Matches(n, Text.Lower(query)), (n: Note) => Matches(n, query));
  }

  /** A note moved to the trash is shown in the trash and nowhere else. */
  lemma DeletedShownOnlyInTrash(notes: seq<Note>, id: string, now: int)
    ensures var r := NoteStore.DeleteNote(notes, id, now);
      forall n :: n in r && n.id == id ==>
        && n in ViewStage(r, Trash)
        && n !in ViewStage(r, Notes)
        && n !in ViewStage(r, Archive)
  {
  }

  /** A restored note is shown in the notes view again. */
  lemma RestoredShownInNotes(notes: seq<Note>, id: string, now: int)
    ensures var r := NoteStore.RestoreNote(notes, id, now);
      forall n :: n in r && n.id == id ==> n in ViewStage(r, Notes)
  {
  }

  /** After archiving, no note with the id appears in the pinned group of
      any view. This follows from the archive flag alone (archived notes fail
      the notes-view test); the unpinning itself is stated by `ArchiveNote`. */
  lemma ArchivedNeverPinned(notes: seq<Note>, id: string, now: int, v: View, query: string)
    ensures var r := NoteStore.ArchiveNote(notes, id, now);
      forall n :: n in Visible(r, v, query).pinned ==> n.id != id
  {
  }

  /** The two-note example: with nothing deleted or archived, the notes view
      shows the pinned note above the other one and the trash is empty. */
  lemma TwoNoteExample()
    ensures var a := Note("1", "A", "", Default, true, false, false, 0, 0);
            var b := Note("2", "B", "", Default, false, false, false, 0, 0);
            && Visible([a, b], Notes, "") == Groups([a], [b])
            && Visible([a, b], Trash, "") == Groups([], [])
  {
    var a := Note("1", "A", "", Default, true, false, false, 0, 0);
    var b := Note("2", "B", "", Default, false, false, false, 0, 0);
    assert [a, b][1..] == [b];
    assert [b][1..] == [];
    assert ViewStage([b], Notes) == [b];
    assert ViewStage([a, b], Notes) == [a, b];
    var t := ViewStage([a, b], Trash);
    if t != [] {
      assert t[0] in t;
    }
  }
}
