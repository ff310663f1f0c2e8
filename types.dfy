/** Records and enumerations shared by every part of the tool, mirroring
    types.ts, plus the Option/Result wrappers used for optional fields and
    error returns. */
module Types {

  datatype Option<T> = None | Some(value: T)

  datatype Result<T, E> = Ok(value: T) | Err(error: E)

  /** Processing state of one uploaded asset. */
  datatype ProcessingStatus = Idle | Uploading | Analyzing | Completed | Error

  /** QUALITY uses the pro vision model, FAST the lite model. */
  datatype ModelMode = Quality | Fast

  datatype StockMetadata = StockMetadata(
    title: string,
    description: string,
    keywords: seq<string>,
    category: string)

  /** A browser File: its name, its MIME type and an opaque handle standing
      for its contents. */
  datatype FileRef = FileRef(name: string, mime: string, handle: nat)

  /** Asset ids are opaque tokens; the model draws them from a counter. */
  type Id = nat

  /** One asset of the collection. `preview` is the file the display URL was
      created from (None for the empty preview URL of an orphan vector). */
  datatype UploadedFile = UploadedFile(
    id: Id,
    file: FileRef,
    vectorFile: Option<FileRef>,
    preview: Option<FileRef>,
    status: ProcessingStatus,
    metadata: Option<StockMetadata>,
    error: Option<string>,
    trending: Option<seq<string>>)
}
