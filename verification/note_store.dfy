/**
 The note store (src/contexts/NoteContext.tsx): the list of notes and the
 operations that replace it. Every operation is a function from the current
 list to the next one. The clock reading `Date.now()` is the parameter `now`,
 and the id a new note receives is the parameter `id`.
 */
module NoteStore {
  import opened Wrappers
  import opened Types
  import Seqs
  import Text

  /** Some note of the list carries `id`. */
  predicate HasId(notes: seq<Note>, id: string)
  {
    exists i :: 0 <= i < |notes| && notes[i].id == id
  }

  /** `a` and `b` are the same note with the same text, colour and creation
      time; only the flags and `updatedAt` may differ. */
  predicate SameBody(a: Note, b: Note)
  {
    && a.id == b.id
    && a.title == b.title
    && a.content == b.content
    && a.color == b.color
    && a.createdAt == b.createdAt
  }

  /** The shape shared by every mutator built on `notes.map`: the notes whose
      id is `id` are replaced by `edit` of themselves, the others are kept. */
  function Rewrite(notes: seq<Note>, id: string, edit: Note -> Note): (r: seq<Note>)
    ensures |r| == |notes|
    ensures forall i :: 0 <= i < |notes| && notes[i].id != id ==> r[i] == notes[i]
    ensures forall i :: 0 <= i < |notes| && notes[i].id == id ==> r[i] == edit(notes[i])
    ensures !HasId(notes, id) ==> r == notes
  {
    Seqs.Map(notes, (n: Note) => if n.id == id then edit(n) else n)
  }

  /** `addNote`: nothing happens when title and content are both blank;
      otherwise a fresh note is put in front of the list. */
  function AddNote(notes: seq<Note>, title: string, content: string, id: string, now: int): (r: seq<Note>)
    ensures Text.IsBlank(title) && Text.IsBlank(content) ==> r == notes
    ensures !(Text.IsBlank(title) && Text.IsBlank(content)) ==>
      && |r| == |notes| + 1
      && r[1..] == notes
      && r[0].id == id && r[0].title == title && r[0].content == content
      && r[0].color == Default
      && !r[0].isPinned && !r[0].isArchived && !r[0].isDeleted
      && r[0].createdAt == now && r[0].updatedAt == now
  {
    Text.TrimEmptyIffBlank(title);
    Text.TrimEmptyIffBlank(content);
    if Text.Trim(title) == [] && Text.Trim(content) == [] then notes
    else [Note(id, title, content, Default, false, false, false, now, now)] + notes
  }

  /** `{ ...n, ...patch }`: each field the patch gives replaces the note's. */
  function Merge(n: Note, p: NotePatch): Note
  {
    Note(
      p.id.GetOr(n.id),
      p.title.GetOr(n.title),
      p.content.GetOr(n.content),
      p.color.GetOr(n.color),
      p.isPinned.GetOr(n.isPinned),
      p.isArchived.GetOr(n.isArchived),
      p.isDeleted.GetOr(n.isDeleted),
      p.createdAt.GetOr(n.createdAt),
      p.updatedAt.GetOr(n.updatedAt))
  }

  /** `m` carries the patch's value for every field the patch gives and
      `n`'s value for every other field, `updatedAt` aside. */
  ghost predicate Patched(n: Note, p: NotePatch, m: Note)
  {
    && m.id == (if p.id.Some? then p.id.value else n.id)
    && m.title == (if p.title.Some? then p.title.value else n.title)
    && m.content == (if p.content.Some? then p.content.value else n.content)
    && m.color == (if p.color.Some? then p.color.value else n.color)
    && m.isPinned == (if p.isPinned.Some? then p.isPinned.value else n.isPinned)
    && m.isArchived == (if p.isArchived.Some? then p.isArchived.value else n.isArchived)
    && m.isDeleted == (if p.isDeleted.Some? then p.isDeleted.value else n.isDeleted)
    && m.createdAt == (if p.createdAt.Some? then p.createdAt.value else n.createdAt)
  }

  /** `updateNote`: the patch is merged into every note with the id and
      `updatedAt` is set to the clock, whatever the patch says about it. */
  function UpdateNote(notes: seq<Note>, id: string, patch: NotePatch, now: int): (r: seq<Note>)
    ensures |r| == |notes|
    ensures forall i :: 0 <= i < |notes| && notes[i].id != id ==> r[i] == notes[i]
    ensures forall i :: 0 <= i < |notes| && notes[i].id == id ==>
      Patched(notes[i], patch, r[i]) && r[i].updatedAt == now
    ensures !HasId(notes, id) ==> r == notes
  {
    MergeIsPatched(patch, now);
    Rewrite(notes, id, (n: Note) => Merge(n, patch).(updatedAt := now))
  }

  /** `Merge` does what `Patched` describes, whatever `updatedAt` becomes. */
  lemma MergeIsPatched(p: NotePatch, now: int)
    ensures forall n :: Patched(n, p, Merge(n, p).(updatedAt := now))
  {
  }

  /** `deleteNote`: moves the notes with the id to the trash. */
  function DeleteNote(notes: seq<Note>, id: string, now: int): (r: seq<Note>)
    ensures |r| == |notes|
    ensures forall i :: 0 <= i < |notes| && notes[i].id != id ==> r[i] == notes[i]
    ensures forall i :: 0 <= i < |notes| && notes[i].id == id ==>
      && SameBody(r[i], notes[i])
      && r[i].isDeleted
      && r[i].isArchived == notes[i].isArchived
      && r[i].isPinned == notes[i].isPinned
      && r[i].updatedAt == now
    ensures !HasId(notes, id) ==> r == notes
  {
    Rewrite(notes, id, (n: Note) => n.(isDeleted := true, updatedAt := now))
  }

  /** `archiveNote`: archives the notes with the id and unpins them. */
  function ArchiveNote(notes: seq<Note>, id: string, now: int): (r: seq<Note>)
    ensures |r| == |notes|
    ensures forall i :: 0 <= i < |notes| && notes[i].id != id ==> r[i] == notes[i]
    ensures forall i :: 0 <= i < |notes| && notes[i].id == id ==>
      && SameBody(r[i], notes[i])
      && r[i].isArchived
      && !r[i].isPinned
      && r[i].isDeleted == notes[i].isDeleted
      && r[i].updatedAt == now
    ensures !HasId(notes, id) ==> r == notes
  {
    Rewrite(notes, id, (n: Note) => n.(isArchived := true, isPinned := false, updatedAt := now))
  }

  /** `restoreNote`: takes the notes with the id out of both the archive and
      the trash; the pin is left as it is. */
  function RestoreNote(notes: seq<Note>, id: string, now: int): (r: seq<Note>)
    ensures |r| == |notes|
    ensures forall i :: 0 <= i < |notes| && notes[i].id != id ==> r[i] == notes[i]
    ensures forall i :: 0 <= i < |notes| && notes[i].id == id ==>
      && SameBody(r[i], notes[i])
      && !r[i].isArchived
      && !r[i].isDeleted
      && r[i].isPinned == notes[i].isPinned
      && r[i].updatedAt == now
    ensures !HasId(notes, id) ==> r == notes
  {
    Rewrite(notes, id, (n: Note) => n.(isArchived := false, isDeleted := false, updatedAt := now))
  }

  /** `togglePin`: flips the pin of the notes with the id. */
  function TogglePin(notes: seq<Note>, id: string, now: int): (r: seq<Note>)
    ensures |r| == |notes|
    ensures forall i :: 0 <= i < |notes| && notes[i].id != id ==> r[i] == notes[i]
    ensures forall i :: 0 <= i < |notes| && notes[i].id == id ==>
      && SameBody(r[i], notes[i])
      && r[i].isPinned != notes[i].isPinned
      && r[i].isArchived == notes[i].isArchived
      && r[i].isDeleted == notes[i].isDeleted
      && r[i].updatedAt == now
    ensures !HasId(notes, id) ==> r == notes
  {
    Rewrite(notes, id, (n: Note) => n.(isPinned := !n.isPinned, updatedAt := now))
  }

  /** `changeNoteColor`: gives the notes with the id the colour `color`. */
  function ChangeNoteColor(notes: seq<Note>, id: string, color: NoteColor, now: int): (r: seq<Note>)
    ensures |r| == |notes|
    ensures forall i :: 0 <= i < |notes| && notes[i].id != id ==> r[i] == notes[i]
    ensures forall i :: 0 <= i < |notes| && notes[i].id == id ==>
      && r[i].color == color
      && r[i].id == notes[i].id
      && r[i].title == notes[i].title
      && r[i].content == notes[i].content
      && r[i].createdAt == notes[i].createdAt
      && r[i].isPinned == notes[i].isPinned
      && r[i].isArchived == notes[i].isArchived
      && r[i].isDeleted == notes[i].isDeleted
      && r[i].updatedAt == now
    ensures !HasId(notes, id) ==> r == notes
  {
    Rewrite(notes, id, (n: Note) => n.(color := color, updatedAt := now))
  }

  /** `permanentlyDeleteNote`: the notes with the id leave the list; the
      others stay, in their order. */
  function PermanentlyDeleteNote(notes: seq<Note>, id: string): (r: seq<Note>)
    ensures Seqs.IsSubsequence(r, notes)
    ensures forall n :: n in r ==> n.id != id
    ensures forall n :: n in notes && n.id != id ==> n in r
    ensures multiset(r) + multiset(Removed(notes, id)) == multiset(notes)
    ensures !HasId(notes, id) ==> r == notes
  {
    var r := Seqs.Filter(notes, (n: Note) => n.id != id);
    Seqs.FilterSplit(notes, (n: Note) => n.id != id, (n: Note) => n.id == id);
    if !HasId(notes, id) then
      Seqs.FilterAll(notes, (n: Note) => n.id != id);
      r
    else r
  }

  /** The notes `PermanentlyDeleteNote` takes out of the list. */
  function Removed(notes: seq<Note>, id: string): (r: seq<Note>)
    ensures forall n :: n in r <==> n in notes && n.id == id
  {
    Seqs.Filter(notes, (n: Note) => n.id == id)
  }

  /** Pinning twice gives every note its pin back: the net effect is that of
      an update with nothing in it, which only refreshes `updatedAt`. */
  lemma TogglePinTwice(notes: seq<Note>, id: string, t1: int, t2: int)
    ensures TogglePin(TogglePin(notes, id, t1), id, t2) == UpdateNote(notes, id, EmptyPatch, t2)
  {
    var once := TogglePin(notes, id, t1);
    var r := TogglePin(once, id, t2);
    var s := UpdateNote(notes, id, EmptyPatch, t2);
    forall i | 0 <= i < |notes|
      ensures r[i] == s[i]
    {
      if notes[i].id == id {
        assert once[i].id == id;
        assert r[i] == notes[i].(updatedAt := t2);
      }
    }
  }

  /** Restoring a note that was in the notes view before it went to the trash
      undoes the deletion, apart from `updatedAt`. */
  lemma RestoreUndoesDelete(notes: seq<Note>, id: string, t1: int, t2: int)
    requires forall i :: 0 <= i < |notes| && notes[i].id == id ==> !notes[i].isArchived && !notes[i].isDeleted
    ensures RestoreNote(DeleteNote(notes, id, t1), id, t2) == UpdateNote(notes, id, EmptyPatch, t2)
  {
    var once := DeleteNote(notes, id, t1);
    var r := RestoreNote(once, id, t2);
    var s := UpdateNote(notes, id, EmptyPatch, t2);
    forall i | 0 <= i < |notes|
      ensures r[i] == s[i]
    {
      if notes[i].id == id {
        assert once[i].id == id;
        assert r[i] == notes[i].(updatedAt := t2);
      }
    }
  }

  /** Archiving and then restoring returns a note to the notes view, but
      unpinned: the pin is lost on the way. */
  lemma ArchiveRestoreUnpins(notes: seq<Note>, id: string, t1: int, t2: int)
    requires forall i :: 0 <= i < |notes| && notes[i].id == id ==> !notes[i].isDeleted
    ensures RestoreNote(ArchiveNote(notes, id, t1), id, t2)
         == UpdateNote(notes, id, EmptyPatch.(isPinned := Some(false), isArchived := Some(false)), t2)
  {
    var once := ArchiveNote(notes, id, t1);
    var r := RestoreNote(once, id, t2);
    var s := UpdateNote(notes, id, EmptyPatch.(isPinned := Some(false), isArchived := Some(false)), t2);
    forall i | 0 <= i < |notes|
      ensures r[i] == s[i]
    {
      if notes[i].id == id {
        assert once[i].id == id;
        assert r[i] == notes[i].(isPinned := false, isArchived := false, updatedAt := t2);
      }
    }
  }

  /** Applying the same patch twice is applying it once, as long as the
      patch does not move the note to another id. */
  lemma UpdateIdempotent(notes: seq<Note>, id: string, p: NotePatch, t1: int, t2: int)
    requires p.id == None || p.id == Some(id)
    ensures UpdateNote(UpdateNote(notes, id, p, t1), id, p, t2) == UpdateNote(notes, id, p, t2)
  {
    var once := UpdateNote(notes, id, p, t1);
    var r := UpdateNote(once, id, p, t2);
    var s := UpdateNote(notes, id, p, t2);
    forall i | 0 <= i < |notes|
      ensures r[i] == s[i]
    {
      UpdateAt(notes, id, p, t1, i);
      UpdateAt(once, id, p, t2, i);
      UpdateAt(notes, id, p, t2, i);
      if notes[i].id == id {
        assert once[i].id == id;
        MergeTwice(notes[i], p, t1, t2);
      }
    }
  }

  /** Merging a patch into a note it was already merged into changes nothing. */
  lemma MergeTwice(n: Note, p: NotePatch, t1: int, t2: int)
    ensures Merge(Merge(n, p).(updatedAt := t1), p).(updatedAt := t2) == Merge(n, p).(updatedAt := t2)
  {
  }

  /** One element of an update, as `Merge` computes it. */
  lemma UpdateAt(notes: seq<Note>, id: string, p: NotePatch, now: int, i: int)
    requires 0 <= i < |notes|
    ensures UpdateNote(notes, id, p, now)[i]
         == if notes[i].id == id then Merge(notes[i], p).(updatedAt := now) else notes[i]
  {
  }

  /** The note editor's update (a new title and content) keeps the note's
      id, colour, flags and creation time. */
  lemma EditKeepsEverythingElse(notes: seq<Note>, id: string, title: string, content: string, now: int)
    ensures var r := UpdateNote(notes, id, EditPatch(title, content), now);
      forall i :: 0 <= i < |notes| && notes[i].id == id ==>
        && r[i].title == title && r[i].content == content
        && r[i].id == id && r[i].color == notes[i].color && r[i].createdAt == notes[i].createdAt
        && r[i].isPinned == notes[i].isPinned
        && r[i].isArchived == notes[i].isArchived
        && r[i].isDeleted == notes[i].isDeleted
  {
  }

  /** A patch that gives another id renames the notes it updates; they no
      longer answer to the old id, so repeating the update changes nothing. */
  lemma UpdateRenames(notes: seq<Note>, id: string, p: NotePatch, t1: int, t2: int)
    requires p.id.Some? && p.id.value != id
    ensures UpdateNote(UpdateNote(notes, id, p, t1), id, p, t2) == UpdateNote(notes, id, p, t1)
  {
    var once := UpdateNote(notes, id, p, t1);
    assert !HasId(once, id);
  }

  /** A note just added under a fresh id can be deleted permanently, which
      gives back the list as it was before. */
  lemma AddThenPermanentlyDelete(notes: seq<Note>, title: string, content: string, id: string, now: int)
    requires !HasId(notes, id)
    ensures PermanentlyDeleteNote(AddNote(notes, title, content, id, now), id) == notes
  {
    var added := AddNote(notes, title, content, id, now);
    if added != notes {
      assert added == [added[0]] + notes;
      Seqs.FilterAppend([added[0]], notes, (n: Note) => n.id != id);
      Seqs.FilterAll(notes, (n: Note) => n.id != id);
    }
  }

  /** Of two colour changes only the later one is visible. */
  lemma ChangeColorLastWins(notes: seq<Note>, id: string, c1: NoteColor, c2: NoteColor, t1: int, t2: int)
    ensures ChangeNoteColor(ChangeNoteColor(notes, id, c1, t1), id, c2, t2) == ChangeNoteColor(notes, id, c2, t2)
  {
    var once := ChangeNoteColor(notes, id, c1, t1);
    var r := ChangeNoteColor(once, id, c2, t2);
    var s := ChangeNoteColor(notes, id, c2, t2);
    forall i | 0 <= i < |notes|
      ensures r[i] == s[i]
    {
      if notes[i].id == id {
        assert once[i].id == id;
      }
    }
  }

  /** Permanent deletion is idempotent. */
  lemma PermanentlyDeleteIdempotent(notes: seq<Note>, id: string)
    ensures PermanentlyDeleteNote(PermanentlyDeleteNote(notes, id), id) == PermanentlyDeleteNote(notes, id)
  {
    var r := PermanentlyDeleteNote(notes, id);
    assert !HasId(r, id) by {
      forall i | 0 <= i < |r|
        ensures r[i].id != id
      {
        assert r[i] in r;
      }
    }
  }
}
