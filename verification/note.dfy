/** The records of `src/types/Note.ts`. A `Date` is its millisecond count
    (`getTime()`), an optional property is an `Option`. */
module NoteModel {
  import opened Results

  datatype Priority = Low | Medium | High

  datatype ProcessingStatus = Pending | Processing | Completed | Failed

  /** Milliseconds since the epoch, as `Date.prototype.getTime` returns them. */
  type Timestamp = int

  /** `Note['structuredContent']`: what the structuring service produces. */
  datatype StructuredContent = StructuredContent(
    title: string,
    category: string,
    content: string,
    tags: seq<string>,
    priority: Option<Priority>)

  datatype Note = Note(
    id: string,
    timestamp: Timestamp,
    rawTranscript: string,
    structuredContent: StructuredContent,
    audioPath: Option<string>,
    processingStatus: ProcessingStatus,
    createdAt: Timestamp,
    updatedAt: Timestamp)
}
