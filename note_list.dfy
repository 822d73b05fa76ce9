/**
 * The note list's own copy of the note search, `src/ui/NoteList.tsx`. It is
 * written exactly like the store's, and is proved to agree with it.
 */
module NoteList {

  import opened Common
  import NotesStore

  /** `searchNotes` of the note list. */
  function SearchNotes(notesData: seq<NotesStore.NoteData>, search: string): seq<NotesStore.NoteData>
  {
    if search == "" then notesData
    else Filter(notesData, (note: NotesStore.NoteData) =>
      Includes(note.title, search)
      || exists k :: 0 <= k < |note.paragraphs| && Includes(note.paragraphs[k], search))
  }

  /** The list's search and the store's give the same notes on every input. */
  lemma {:induction false} SearchNotesAgree(notesData: seq<NotesStore.NoteData>, search: string)
    ensures SearchNotes(notesData, search) == NotesStore.SearchNotes(notesData, search)
    decreases |notesData|
  {
    if search != "" && notesData != [] {
      SearchNotesAgree(notesData[1..], search);
    }
  }
}
