/**
 * The note search of `src/store/notes.ts`: an empty search keeps every
 * note, any other keeps the notes whose title or some paragraph contains
 * it, in their order.
 */
module NotesStore {

  import opened Common

  /** `NoteData` of `src/store/note.ts`. */
  datatype NoteData = NoteData(id: int, title: string, paragraphs: seq<string>)

  /** The note's title, or at least one of its paragraphs, contains the search. */
  predicate NoteMatches(note: NoteData, search: string)
  {
    Includes(note.title, search) || exists k :: 0 <= k < |note.paragraphs| && Includes(note.paragraphs[k], search)
  }

  /** `searchNotes`. */
  function SearchNotes(notesData: seq<NoteData>, search: string): seq<NoteData>
  {
    if search == "" then notesData else Filter(notesData, note => NoteMatches(note, search))
  }

  /**
   * An empty search returns the list as it is; any other keeps exactly the
   * notes that match it.
   */
  lemma SearchNotesKeepsMatches(notesData: seq<NoteData>, search: string)
    ensures search == "" ==> SearchNotes(notesData, search) == notesData
    ensures search != "" ==>
      forall n :: (n in SearchNotes(notesData, search) <==> n in notesData && NoteMatches(n, search))
    ensures search != "" ==>
      forall n :: multiset(SearchNotes(notesData, search))[n]
                  == if NoteMatches(n, search) then multiset(notesData)[n] else 0
  {
    if search != "" {
      FilterCounts(notesData, note => NoteMatches(note, search));
    }
  }

  /** The result is the input with some notes dropped and the order kept, so never longer. */
  lemma SearchNotesSubsequence(notesData: seq<NoteData>, search: string)
    ensures IsSubsequence(SearchNotes(notesData, search), notesData)
    ensures |SearchNotes(notesData, search)| <= |notesData|
  {
    if search == "" {
      SubsequenceOfItself(notesData);
    } else {
      FilterIsSubsequence(notesData, note => NoteMatches(note, search));
    }
  }

  /** Searching the result again with the same search changes nothing. */
  lemma SearchNotesIdempotent(notesData: seq<NoteData>, search: string)
    ensures SearchNotes(SearchNotes(notesData, search), search) == SearchNotes(notesData, search)
  {
    if search != "" {
      FilterIdempotent(notesData, note => NoteMatches(note, search));
    }
  }
}
