/** The records of the note application (src/types/index.ts). */
module Types {
  import opened Wrappers

  /** The nine colours a note can carry. */
  datatype NoteColor = Default | Red | Orange | Yellow | Green | Teal | Blue | Purple | Pink

  /** A note. Timestamps are milliseconds since the epoch, as read from the clock. */
  datatype Note = Note(
    id: string,
    title: string,
    content: string,
    color: NoteColor,
    isPinned: bool,
    isArchived: bool,
    isDeleted: bool,
    createdAt: int,
    updatedAt: int
  )

  /** The view selected in the sidebar. */
  datatype View = Notes | Labels | Archive | Trash

  /** A `Partial<Note>`: every field may be given or left out. */
  datatype NotePatch = NotePatch(
    id: Option<string>,
    title: Option<string>,
    content: Option<string>,
    color: Option<NoteColor>,
    isPinned: Option<bool>,
    isArchived: Option<bool>,
    isDeleted: Option<bool>,
    createdAt: Option<int>,
    updatedAt: Option<int>
  )

  /** The patch that gives no field. */
  const EmptyPatch := NotePatch(None, None, None, None, None, None, None, None, None)

  /** The patch the note editor sends: a new title and a new content. */
  function EditPatch(title: string, content: string): NotePatch
  {
    EmptyPatch.(title := Some(title), content := Some(content))
  }
}
