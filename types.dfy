/** Values shared by every layer of the file-lifecycle coordinator. */
module Types {

  /** One octet of file content; Go's `byte`. */
  newtype byte = b: int | 0 <= b < 256

  /** File content as the object store keeps it. */
  type Bytes = seq<byte>

  datatype Option<T> = None | Some(value: T)

  datatype Result<T, E> = Success(value: T) | Failure(error: E)

  /** A Go slice as the repository returns it: `nil`, or a non-nil slice. */
  datatype Slice<T> = Nil | Slice(elems: seq<T>) {
    /** The elements; a nil slice has none. */
    function Elems(): seq<T> {
      if Nil? then [] else elems
    }
  }

  /** Go's `append(s, x)`: always yields a non-nil slice. */
  function Append<T>(s: Slice<T>, x: T): (r: Slice<T>)
    ensures r.Slice? && r.Elems() == s.Elems() + [x]
  {
    Slice(s.Elems() + [x])
  }

  /**
   * One row of the `files` table (the `File` struct of the files module).
   * `createdAt` and `updatedAt` are stamps of the table's logical clock;
   * `resume` is the nullable summary column.
   */
  datatype FileRecord = FileRecord(
    id: int,
    name: string,
    size: int,
    mimeType: string,
    objectKey: string,
    createdAt: int,
    updatedAt: int,
    resume: Option<string>)

  /** What the metadata table reports when a call fails. */
  datatype RepoError =
    | DbFailed          // the driver or the connection reported an error
    | NoRows            // a single-row query found no row with that id
    | ScanFailed        // a row of a listing could not be scanned
    | IterationFailed   // the row cursor reported an error after the last row
    | NotFound          // a delete affected zero rows

  /** What the object store reports when a call fails. */
  datatype StoreError =
    | Unavailable       // the backend rejected the call or could not be reached
    | NoSuchKey         // no object is stored under that key

  /** What the summariser reports when it fails. */
  datatype AnalysisError =
    | CompletionFailed  // the completion request itself failed
    | NoChoices         // the provider answered with no choices

  /**
   * The summariser: content in, summary text or a failure out. It is an
   * oracle: any function of this type is a possible provider.
   */
  type Provider = Bytes -> Result<string, AnalysisError>
}
