/** The values that flow through the application: uploaded files and the
    LangChain documents the loaders, the splitter and the index pass on. */
module Documents {
  import opened Wrappers

  newtype byte = x: int | 0 <= x < 256

  /** An uploaded file: the name the browser sent and its bytes. */
  datatype Upload = Upload(name: string, data: seq<byte>)

  /** The temporary copy a loader opens: a fresh file whose name ends with
      the upload's lower-cased suffix and which holds the upload's bytes.
      The upload's own name does not reach the loader. */
  datatype TempFile = TempFile(suffix: string, data: seq<byte>)

  /** A document: its text (`page_content`) and the two metadata keys the
      application reads. `page` is `Some` exactly when the metadata holds an
      integer under "page"; a missing key or a value of another type is
      `None`. */
  datatype Document = Document(content: string, source: Option<string>, page: Option<int>)
}
