/** Shared vocabulary of the knowledge assistant: failure-compatible wrappers,
    the exceptions the code raises, and the documents and metadata that flow
    from the loaders through the chunker into the vector store. */
module Common {

  datatype Option<+T> = None | Some(value: T)

  datatype Result<+R, +E> = Ok(value: R) | Err(error: E)

  /** The outcome of a call that returns nothing but may raise. */
  datatype Outcome = Pass | Fail(error: Error)

  /** The Python exception classes that the modelled code raises or lets through. */
  datatype ErrorKind =
    | AssertionError      // a failed `assert`
    | IndexError          // a list subscript past the end
    | FileNotFoundError   // a missing index, store or ingestion path
    | ValueError          // an unsupported file type
    | ReaderError         // a foreign reader (faiss, pickle, a document parser) rejected its input

  /** An exception: its class and `str(e)`, the text the HTTP layer reports. */
  datatype Error = Error(kind: ErrorKind, message: string)

  /** The scalar values the loaders put in document metadata. */
  datatype Scalar = Str(s: string) | Int(i: int)

  type Metadata = map<string, Scalar>

  /** A langchain Document: page content and its provenance metadata. */
  datatype Document = Document(content: string, metadata: Metadata)

  /** `meta.get(key)`: the value, or None when the key is absent. */
  function Get(meta: Metadata, key: string): (v: Option<Scalar>)
    ensures v.Some? <==> key in meta
    ensures v.Some? ==> v.value == meta[key]
  {
    if key in meta then Some(meta[key]) else None
  }

  /** Python truthiness of an optional scalar: None, "" and 0 are false. */
  predicate Truthy(v: Option<Scalar>)
  {
    match v
    case None => false
    case Some(Str(s)) => s != ""
    case Some(Int(i)) => i != 0
  }
}
