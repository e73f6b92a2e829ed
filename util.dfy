/** internal/util/util.go: the strict end-of-input check a decoder runs
    after its last field. */
module Util {
  import opened Errors
  import opened GoReader

  /** AssertReaderEOF: no error exactly when no byte is left unread,
      otherwise an error that reports how many are.  It only asks the
      reader for its length, so the reader is not moved (a value here). */
  function AssertReaderEOF(reader: Reader): (r: Option<Error>)
    ensures r.None? <==> reader.Len() == 0
    ensures r.Some? ==> r.value == UnexpectedExtraBytes(reader.Len()) && reader.Len() > 0
  {
    if reader.Len() != 0 then Some(UnexpectedExtraBytes(reader.Len())) else None
  }

  /** The outcome depends only on how many bytes remain, not on their
      values or on where the reader stands; and it agrees with the reader's
      own notion of the end, a Read that returns EOF. */
  lemma AssertReaderEOFOnlyCountsBytes(a: Reader, b: Reader)
    ensures a.Len() == b.Len() ==> AssertReaderEOF(a) == AssertReaderEOF(b)
    ensures AssertReaderEOF(a).None? <==> a.Read(0) == Err(EOF)
  {
  }
}
