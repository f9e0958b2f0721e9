# memo_app note store and note grid, in Dafny

A model of the two pieces of the memo application that carry behaviour:

- the **note store** (`src/contexts/NoteContext.tsx`). It holds the list of notes.
  `addNote` puts a new note in front of the list. `updateNote`, `deleteNote`,
  `archiveNote`, `restoreNote`, `togglePin` and `changeNoteColor` rewrite the notes
  whose id matches. `permanentlyDeleteNote` removes them.
- the **note grid** (`src/components/NoteGrid.tsx`). It selects the notes of the
  active view (notes, labels, archive, trash). It then applies the
  case-insensitive search. In the notes view it also splits the result into a
  pinned group and a group of the others.

Each store operation is a pure function from the old list to the new one. The
clock reading `Date.now()` is a parameter `now`, and the id of a new note is a
parameter `id`.

Files:

- `types.dfy` (`Types`): `Note`, `NoteColor` (nine colours), `View` (four views), and
  `NotePatch`, which models `Partial<Note>` as a record of `Option` fields.
- `wrappers.dfy` (`Wrappers`): `Option`.
- `seqs.dfy` (`Seqs`): `Map` and `Filter` (the array methods the source uses) and the
  subsequence relation.
- `text.dfy` (`Text`): `trim`, `toLowerCase` (ASCII letters) and `includes`.
- `note_store.dfy` (`NoteStore`): the store operations and lemmas relating them.
- `note_grid.dfy` (`NoteGrid`): the view stage, the search stage, the pin split, and
  lemmas tying the store to the grid.

## Model

| member | source | states |
|---|---|---|
| NoteStore.AddNote | src/contexts/NoteContext.tsx:72-90 | if title and content are both blank, the list is unchanged. Otherwise the result is one longer and its tail is the old list. Its head has the given id, title and content, colour default, all three flags false, and createdAt = updatedAt = now |
| Text.TrimEmptyIffBlank | src/contexts/NoteContext.tsx:73 | `s.trim()` is empty exactly when every character of `s` is ECMAScript white space or a line terminator |
| Text.Trim | src/contexts/NoteContext.tsx:73 | `trim()` returns a slice of its input; the parts removed before and after it are all white space, and the slice neither starts nor ends with white space |
| Text.TrimStart | src/contexts/NoteContext.tsx:73 | the result is a suffix of the input; the part removed is all white space; the result does not start with white space |
| Text.TrimEnd | src/contexts/NoteContext.tsx:73 | the result is a prefix of the input; the part removed is all white space; the result does not end with white space |
| NoteStore.AddThenPermanentlyDelete | src/contexts/NoteContext.tsx:72-138 | permanently deleting a note just added under an id no other note has gives back the list as it was before the add |
| NoteStore.Rewrite | src/contexts/NoteContext.tsx:93-98 | the shared `map` shape: length kept; a note with another id is kept unchanged at its position; a matching note is replaced by the edit of itself; with an unknown id the list is returned unchanged |
| Seqs.Map | src/contexts/NoteContext.tsx:94-98 | `Array.map` keeps the length and puts f(x[i]) at position i |
| NoteStore.UpdateNote | src/contexts/NoteContext.tsx:92-100 | length and order kept; other notes unchanged; each field the patch gives replaces the matching note's field and every other field is kept; updatedAt is `now` whatever the patch says; an unknown id changes nothing |
| NoteStore.UpdateIdempotent | src/contexts/NoteContext.tsx:92-100 | applying the same patch twice equals applying it once, provided the patch does not change the id |
| NoteStore.UpdateRenames | src/contexts/NoteContext.tsx:92-100 | for every list and every patch that gives an id other than the one searched for, repeating the update changes nothing: the first update renamed every matching note, so the second finds none |
| NoteStore.EditKeepsEverythingElse | src/contexts/NoteContext.tsx:92-100 | an update with only a title and content changes those two and keeps id, colour, createdAt and all flags |
| NoteStore.DeleteNote | src/contexts/NoteContext.tsx:102-110 | length and order kept; other notes unchanged; matching notes become deleted, keep their archive and pin flags, text, colour and createdAt, and get updatedAt = now; an unknown id changes nothing |
| NoteStore.ArchiveNote | src/contexts/NoteContext.tsx:112-120 | matching notes become archived and unpinned, keep isDeleted, text, colour and createdAt, and get updatedAt = now; other notes unchanged; an unknown id changes nothing |
| NoteStore.RestoreNote | src/contexts/NoteContext.tsx:122-130 | matching notes become neither archived nor deleted, keep their pin, text, colour and createdAt, and get updatedAt = now; other notes unchanged; an unknown id changes nothing |
| NoteStore.RestoreUndoesDelete | src/contexts/NoteContext.tsx:102-130 | deleting and then restoring a note that was neither archived nor deleted gives back the original list, except that updatedAt is refreshed |
| NoteStore.ArchiveRestoreUnpins | src/contexts/NoteContext.tsx:112-130 | archiving and then restoring a note that was not deleted gives back the original list except that the note is now unpinned and not archived, with updatedAt refreshed |
| NoteStore.PermanentlyDeleteNote | src/contexts/NoteContext.tsx:136-138 | the result is a subsequence of the input. No note in it has the id. Every note with another id is in it. Together with the notes removed, it holds every input note exactly as often as the input does. An unknown id changes nothing |
| NoteStore.PermanentlyDeleteIdempotent | src/contexts/NoteContext.tsx:136-138 | deleting permanently a second time changes nothing |
| NoteStore.TogglePin | src/contexts/NoteContext.tsx:140-148 | matching notes have their pin flipped, keep both other flags, text, colour and createdAt, and get updatedAt = now; other notes unchanged; an unknown id changes nothing |
| NoteStore.TogglePinTwice | src/contexts/NoteContext.tsx:140-148 | toggling twice gives every note its pin back; the only difference from the original list is the refreshed updatedAt of the matching notes |
| NoteStore.ChangeNoteColor | src/contexts/NoteContext.tsx:150-158 | matching notes get the given colour and keep id, text, createdAt and all flags, with updatedAt = now; other notes unchanged; an unknown id changes nothing |
| NoteStore.ChangeColorLastWins | src/contexts/NoteContext.tsx:150-158 | of two colour changes to the same id, only the later colour and the later clock reading remain |
| Seqs.Filter | src/components/NoteGrid.tsx:11 | `Array.filter` returns a subsequence of its input holding exactly the elements that satisfy the predicate |
| Seqs.FilterCount | src/components/NoteGrid.tsx:11 | `Array.filter` keeps every copy of an element that satisfies the predicate and no copy of one that does not |
| Seqs.FilterAppend | src/components/NoteGrid.tsx:11 | filtering distributes over concatenation; with FilterSingleton this determines the filter uniquely |
| Seqs.FilterSplit | src/components/NoteGrid.tsx:43-49 | filtering by a predicate and by its negation splits the input: multisets add up and lengths add up |
| Seqs.SubsequenceTransitive | src/components/NoteGrid.tsx:11-37 | a subsequence of a subsequence is a subsequence, so the two filter stages keep input order |
| NoteGrid.ViewStage | src/components/NoteGrid.tsx:11-25 | the view stage yields a subsequence of the notes. The notes and labels views keep exactly the notes neither archived nor deleted. The archive view keeps exactly the archived, non-deleted notes. The trash view keeps exactly the deleted notes, archived or not. Every copy of a selected note is kept, so each selected note occurs as often as in the input |
| NoteGrid.ViewsPartition | src/components/NoteGrid.tsx:13-18 | each note falls in exactly one of the notes, archive and trash selections |
| NoteGrid.ViewsCoverList | src/components/NoteGrid.tsx:11-25 | counted with multiplicity, the notes, archive and trash views together show every note of the list exactly once |
| NoteGrid.LabelsIsNotes | src/components/NoteGrid.tsx:19-21 | the labels view selects the same list as the notes view |
| NoteGrid.SearchStage | src/components/NoteGrid.tsx:27-35 | an empty query keeps the list as it is; a non-empty query keeps a subsequence holding exactly the notes whose lower-cased title or content includes the lower-cased query, each as many times as it occurs in the input |
| NoteGrid.SearchIgnoresQueryCase | src/components/NoteGrid.tsx:28-34 | lower-casing the query first does not change what the grid shows |
| Text.Lower | src/components/NoteGrid.tsx:29-33 | the length is kept; no ASCII capital remains; a character that is not an ASCII capital is kept; an ASCII capital becomes its small letter |
| Text.LowerIdempotent | src/components/NoteGrid.tsx:29-33 | lower-casing twice equals lower-casing once |
| Text.IncludesIffOccurs | src/components/NoteGrid.tsx:32-33 | `includes` holds exactly when the query occurs at some position of the string |
| NoteGrid.FilterNotes | src/components/NoteGrid.tsx:9-38 | `filterNotes` returns a subsequence of the notes, so it keeps their order. It holds exactly the notes in the view that also match the query, or all notes in the view when the query is empty. Each kept note occurs as often as in the input, and every other note not at all |
| NoteGrid.Visible | src/components/NoteGrid.tsx:42-49 | in the notes view, the pinned group holds exactly the filtered pinned notes and the other group the rest. Both keep the filtered order, their lengths sum to the filtered length, and their multisets sum to it. In every other view the pinned group is empty and the other group is the filtered list |
| NoteGrid.DeletedShownOnlyInTrash | src/contexts/NoteContext.tsx:102-110 | after `deleteNote`, a note with the id is shown in the trash and in neither the notes nor the archive view |
| NoteGrid.RestoredShownInNotes | src/contexts/NoteContext.tsx:122-130 | after `restoreNote`, a note with the id is shown in the notes view |
| NoteGrid.ArchivedNeverPinned | src/components/NoteGrid.tsx:13-16 | after `archiveNote`, no note with the id is in the pinned group, in any view and for any query. This follows from the archive flag, because archived notes fail the notes-view test. The unpinning itself is stated by NoteStore.ArchiveNote |
| NoteGrid.TwoNoteExample | src/components/NoteGrid.tsx:9-49 | for a pinned note and an unpinned note, neither archived nor deleted, with an empty query: the notes view shows the pinned one in the pinned group and the other one below it, and the trash shows nothing |

## Left out

- Loading from and saving to `localStorage`, and `refreshNotes` (src/contexts/NoteContext.tsx:44-70): these are browser storage I/O plus `JSON.parse`/`JSON.stringify`. The model keeps the list in memory only.
- `replaceNotes` (src/contexts/NoteContext.tsx:132-134): a bare setter with no logic.
- The `addTodo(title)` call in `addNote` (src/contexts/NoteContext.tsx:89), `src/utils/supabaseFunctions.ts` and `supabaseClient.js`: fire-and-forget calls to a remote table client. Their results never reach the list, and the client's code is not part of this model.
- React context, hooks and state plumbing (`useNotes`, `NoteProvider`, `setView`, `setSearchQuery`): framework wiring with no logic.
- NoteStore.AddNote: the source reads the clock three times (id, createdAt, updatedAt). The model uses one reading `now` for both timestamps and takes the id, which the source derives from the clock, as a parameter. It claims neither id uniqueness nor increasing timestamps, because the clock guarantees neither.
- NoteStore.UpdateNote: the source calls `Date.now()` inside the `map` callback (src/contexts/NoteContext.tsx:96), so it reads the clock once per matching note. The model gives every matching note the same `now`. That is exact only when at most one note has the id, and ids can collide because they are derived from the clock.
- NoteStore.DeleteNote: reads the clock once per matching note (src/contexts/NoteContext.tsx:106); one `now` for all of them, as for NoteStore.UpdateNote.
- NoteStore.ArchiveNote: reads the clock once per matching note (src/contexts/NoteContext.tsx:116); one `now` for all of them, as for NoteStore.UpdateNote.
- NoteStore.RestoreNote: reads the clock once per matching note (src/contexts/NoteContext.tsx:126); one `now` for all of them, as for NoteStore.UpdateNote.
- NoteStore.TogglePin: reads the clock once per matching note (src/contexts/NoteContext.tsx:144); one `now` for all of them, as for NoteStore.UpdateNote.
- NoteStore.ChangeNoteColor: reads the clock once per matching note (src/contexts/NoteContext.tsx:154); one `now` for all of them, as for NoteStore.UpdateNote.
- NoteStore.Merge: a `Partial<Note>` field that is present but explicitly `undefined` would overwrite the note's field with `undefined` in the source. The model treats it as absent. The only caller, the note editor, always passes both fields.
- Text.Lower: models `toLowerCase` for the ASCII capitals only, because full Unicode case mapping has no finite definition worth restating here. Non-ASCII letters are compared as they are.
- Text.IsWhitespace lists the ECMAScript WhiteSpace and LineTerminator code points, with the Zs category as of current Unicode. Later Unicode versions may add characters.
- Strings: JavaScript strings are sequences of UTF-16 code units, and the model's strings are sequences of Unicode code points. `trim`, `includes` and `===` agree on well-formed strings. A string holding a lone surrogate cannot be represented.
- Timestamps are JavaScript numbers (doubles) in the source and unbounded integers here. No arithmetic is done on them, so nothing depends on the difference.
- The `default` branch of the view switch (src/components/NoteGrid.tsx:22-23) cannot be reached, because `View` has exactly four values.
- The rendering in NoteGrid.tsx (empty-state messages, group headings) and the components Note.tsx, NoteCreation.tsx, Sidebar.tsx, Header.tsx, ColorPicker.tsx and App.tsx are presentation only. The submit guard in NoteCreation.tsx repeats the `addNote` guard.
