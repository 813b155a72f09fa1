/** `StorageService` of `src/services/StorageService.ts`. The JSON text kept
    under the notes key is abstracted to what `getAllNotes` can make of it:
    nothing (a missing or empty item), a list of notes, or something that
    does not parse as one. Every writer reads the current list through
    `getAllNotes`, changes it, and writes the whole list back. */
module StorageService {
  import opened Results
  import opened Seqs
  import opened NoteModel

  datatype Stored = Absent | Corrupt | Saved(notes: seq<Note>)

  datatype StorageError = StorageError(message: string)

  /** `getAllNotes`: the stored list, or `[]` when there is none or it cannot
      be read back. Nothing stored, an empty item and an unparsable item all
      read as an empty list; a stored list reads back as itself. */
  function GetAllNotes(stored: Stored): (notes: seq<Note>)
    ensures stored.Absent? || stored.Corrupt? ==> notes == []
    ensures stored.Saved? ==> notes == stored.notes
  {
    match stored
    case Saved(notes) => notes
    case Absent => []
    case Corrupt => []
  }

  /** `AsyncStorage.setItem` of a whole list; `write` is what the platform
      call does. A failed write is rethrown and the stored value stays. */
  function Persist(stored: Stored, notes: seq<Note>, write: Outcome<StorageError>)
    : (r: (Stored, Outcome<StorageError>))
    ensures write.Pass? ==> GetAllNotes(r.0) == notes && r.1 == Pass
    ensures write.Fail? ==> r == (stored, write)
  {
    match write
    case Pass => (Saved(notes), Pass)
    case Fail(e) => (stored, Fail(e))
  }

  // ---------------------------------------------------------------------
  // saveNote
  // ---------------------------------------------------------------------

  function SaveNote(stored: Stored, note: Note, write: Outcome<StorageError>)
    : (r: (Stored, Outcome<StorageError>))
    ensures write.Pass? ==> GetAllNotes(r.0) == GetAllNotes(stored) + [note] && r.1 == Pass
    ensures write.Fail? ==> r == (stored, write)
  {
    Persist(stored, GetAllNotes(stored) + [note], write)
  }

  /** A successful save grows the list by one, keeps the old list as a
      prefix, and adds the note even when its id is already present. */
  lemma SaveNoteAppends(stored: Stored, note: Note)
    ensures var after := GetAllNotes(SaveNote(stored, note, Pass).0);
      && |after| == |GetAllNotes(stored)| + 1
      && GetAllNotes(stored) <= after
      && after[|after| - 1] == note
      && multiset(after)[note] == multiset(GetAllNotes(stored))[note] + 1
  {
  }

  /** Saving onto storage that cannot be read replaces it with the one note. */
  lemma SaveOntoUnreadableStorage(stored: Stored, note: Note)
    requires stored.Corrupt? || stored.Absent?
    ensures SaveNote(stored, note, Pass).0 == Saved([note])
  {
  }

  // ---------------------------------------------------------------------
  // updateNote
  // ---------------------------------------------------------------------

  /** `Partial<Note>`: the properties present in an update. */
  datatype NotePatch = NotePatch(
    id: Option<string>,
    timestamp: Option<Timestamp>,
    rawTranscript: Option<string>,
    structuredContent: Option<StructuredContent>,
    audioPath: Option<string>,
    processingStatus: Option<ProcessingStatus>,
    createdAt: Option<Timestamp>,
    updatedAt: Option<Timestamp>)

  const EmptyPatch := NotePatch(None, None, None, None, None, None, None, None)

  /** `{...note, ...updates, updatedAt: now}`: every property present in the
      patch replaces the note's (shallowly: a patch's `structuredContent`
      replaces the whole record), and `updatedAt` is the current time
      whatever the patch says. */
  function Merge(note: Note, u: NotePatch, now: Timestamp): (r: Note)
    ensures r.updatedAt == now
  {
    Note(
      id := u.id.GetOr(note.id),
      timestamp := u.timestamp.GetOr(note.timestamp),
      rawTranscript := u.rawTranscript.GetOr(note.rawTranscript),
      structuredContent := u.structuredContent.GetOr(note.structuredContent),
      audioPath := if u.audioPath.Some? then u.audioPath else note.audioPath,
      processingStatus := u.processingStatus.GetOr(note.processingStatus),
      createdAt := u.createdAt.GetOr(note.createdAt),
      updatedAt := now)
  }

  /** An empty patch only stamps the time; applying a patch twice is
      applying it once. */
  lemma MergeProperties(note: Note, u: NotePatch, now: Timestamp)
    ensures Merge(note, EmptyPatch, now) == note.(updatedAt := now)
    ensures Merge(Merge(note, u, now), u, now) == Merge(note, u, now)
    ensures u.id.None? ==> Merge(note, u, now).id == note.id
  {
  }

  /** A property present in the patch replaces the note's; an absent one
      leaves the note's value. */
  lemma MergeOverrides(note: Note, u: NotePatch, now: Timestamp)
    ensures var r := Merge(note, u, now);
      && (u.id.Some? ==> r.id == u.id.value)
      && (u.id.None? ==> r.id == note.id)
      && (u.timestamp.Some? ==> r.timestamp == u.timestamp.value)
      && (u.timestamp.None? ==> r.timestamp == note.timestamp)
      && (u.rawTranscript.Some? ==> r.rawTranscript == u.rawTranscript.value)
      && (u.rawTranscript.None? ==> r.rawTranscript == note.rawTranscript)
      && (u.structuredContent.Some? ==> r.structuredContent == u.structuredContent.value)
      && (u.structuredContent.None? ==> r.structuredContent == note.structuredContent)
      && (u.audioPath.Some? ==> r.audioPath == u.audioPath)
      && (u.audioPath.None? ==> r.audioPath == note.audioPath)
      && (u.processingStatus.Some? ==> r.processingStatus == u.processingStatus.value)
      && (u.processingStatus.None? ==> r.processingStatus == note.processingStatus)
      && (u.createdAt.Some? ==> r.createdAt == u.createdAt.value)
      && (u.createdAt.None? ==> r.createdAt == note.createdAt)
  {
  }

  /** `notes.map(note => note.id === noteId ? merged : note)`. The callback
      reads the clock anew for every matching note, so `clock(i)` is the time
      it reads at position `i`; two notes sharing the id may get different
      `updatedAt` values. */
  function UpdateById(notes: seq<Note>, noteId: string, u: NotePatch, clock: nat -> Timestamp): (r: seq<Note>)
    ensures |r| == |notes|
    ensures forall i :: 0 <= i < |notes| && notes[i].id != noteId ==> r[i] == notes[i]
    ensures forall i :: 0 <= i < |notes| && notes[i].id == noteId ==>
              r[i] == Merge(notes[i], u, clock(i)) && r[i].updatedAt == clock(i)
  {
    seq(|notes|, i requires 0 <= i < |notes| =>
      if notes[i].id == noteId then Merge(notes[i], u, clock(i)) else notes[i])
  }

  function UpdateNote(stored: Stored, noteId: string, u: NotePatch, clock: nat -> Timestamp, write: Outcome<StorageError>)
    : (r: (Stored, Outcome<StorageError>))
    ensures write.Pass? ==> GetAllNotes(r.0) == UpdateById(GetAllNotes(stored), noteId, u, clock)
    ensures write.Fail? ==> r == (stored, write)
  {
    Persist(stored, UpdateById(GetAllNotes(stored), noteId, u, clock), write)
  }

  /** Unless the patch itself carries an id, an update keeps every id in its
      place, and a note whose id differs is untouched. */
  lemma UpdateKeepsIds(notes: seq<Note>, noteId: string, u: NotePatch, clock: nat -> Timestamp)
    requires u.id.None?
    ensures var r := UpdateById(notes, noteId, u, clock);
      forall i :: 0 <= i < |notes| ==> r[i].id == notes[i].id
  {
  }

  /** Updating with a patch twice under the same clock readings is updating
      once, whether or not the patch carries an id. */
  lemma {:induction false} UpdateIdempotent(notes: seq<Note>, noteId: string, u: NotePatch, clock: nat -> Timestamp)
    ensures UpdateById(UpdateById(notes, noteId, u, clock), noteId, u, clock) == UpdateById(notes, noteId, u, clock)
  {
    var once := UpdateById(notes, noteId, u, clock);
    var twice := UpdateById(once, noteId, u, clock);
    forall i | 0 <= i < |notes|
      ensures twice[i] == once[i]
    {
      MergeProperties(notes[i], u, clock(i));
    }
  }

  // ---------------------------------------------------------------------
  // deleteNote
  // ---------------------------------------------------------------------

  /** `notes.filter(note => note.id !== noteId)`. */
  function RemoveById(notes: seq<Note>, noteId: string): (r: seq<Note>)
    ensures forall i :: 0 <= i < |r| ==> r[i].id != noteId
    ensures forall n :: n in r <==> n in notes && n.id != noteId
    ensures forall n: Note :: n.id != noteId ==> multiset(r)[n] == multiset(notes)[n]
    ensures SubsequenceOf(r, notes)
  {
    Filter(notes, (n: Note) => n.id != noteId)
  }

  function DeleteNote(stored: Stored, noteId: string, write: Outcome<StorageError>)
    : (r: (Stored, Outcome<StorageError>))
    ensures write.Pass? ==> GetAllNotes(r.0) == RemoveById(GetAllNotes(stored), noteId)
    ensures write.Fail? ==> r == (stored, write)
  {
    Persist(stored, RemoveById(GetAllNotes(stored), noteId), write)
  }

  /** Deleting twice is deleting once. */
  lemma DeleteIdempotent(stored: Stored, noteId: string)
    ensures var once := DeleteNote(stored, noteId, Pass).0;
      DeleteNote(once, noteId, Pass).0 == once
  {
    FilterIdempotent(GetAllNotes(stored), (n: Note) => n.id != noteId);
  }

  /** Removal acts on each part of a list separately, so the notes that stay
      keep their relative order. */
  lemma RemoveByIdAppend(a: seq<Note>, b: seq<Note>, noteId: string)
    ensures RemoveById(a + b, noteId) == RemoveById(a, noteId) + RemoveById(b, noteId)
  {
    FilterAppend(a, b, (n: Note) => n.id != noteId);
  }

  /** Removing an id that is absent changes nothing. */
  lemma RemoveAbsentId(notes: seq<Note>, noteId: string)
    requires forall i :: 0 <= i < |notes| ==> notes[i].id != noteId
    ensures RemoveById(notes, noteId) == notes
  {
    FilterAllPass(notes, (n: Note) => n.id != noteId);
  }

  /** Updating or deleting on storage that cannot be read writes back an
      empty list. */
  lemma RewriteUnreadableStorage(stored: Stored, noteId: string, u: NotePatch, clock: nat -> Timestamp)
    requires stored.Corrupt? || stored.Absent?
    ensures UpdateNote(stored, noteId, u, clock, Pass).0 == Saved([])
    ensures DeleteNote(stored, noteId, Pass).0 == Saved([])
  {
  }
}
