/** Go's `bytes.Reader` as the decoders use it: a byte slice and a read
    offset.  The offset may lie past the end of the data, because `Seek`
    does not check it. */
module GoReader {
  import opened Bytes
  import opened Errors

  datatype Reader = Reader(data: seq<byte>, pos: nat) {

    /** Reader.Len: the number of unread bytes, 0 once the offset is at or
        past the end. */
    function Len(): nat
    {
      if pos >= |data| then 0 else |data| - pos
    }

    /** Reader.Read into a freshly made (zeroed) buffer of `n` bytes.  With
        no byte left it returns EOF, even when `n` is 0; otherwise it copies
        min(n, Len()) bytes without error and the rest of the buffer stays
        zero. */
    function Read(n: nat): (r: Result<(seq<byte>, Reader)>)
      ensures r.Ok? <==> Len() > 0
      ensures r.Ok? ==> |r.value.0| == n && r.value.1.data == data && r.value.1.pos == pos + Min(n, Len())
      ensures r.Ok? && pos + n <= |data| ==> r.value.0 == data[pos..pos + n]
    {
      if Len() == 0 then Err(EOF)
      else
        var k := Min(n, Len());
        assert k == n ==> data[pos..pos + k] + Zeros(n - k) == data[pos..pos + n];
        Ok((data[pos..pos + k] + Zeros(n - k), Reader(data, pos + k)))
    }

    /** binary.Read of an `n`-byte field, which goes through io.ReadFull:
        EOF when nothing is left, UnexpectedEOF when only part of the field
        is. */
    function ReadFull(n: nat): (r: Result<(seq<byte>, Reader)>)
      requires n > 0
      ensures r.Ok? <==> Len() >= n
      ensures r.Ok? ==> |r.value.0| == n && r.value.1 == Reader(data, pos + n)
    {
      if Len() == 0 then Err(EOF)
      else if Len() < n then Err(UnexpectedEOF)
      else Ok((data[pos..pos + n], Reader(data, pos + n)))
    }

    /** Reader.ReadByte. */
    function ReadByte(): Result<(byte, Reader)>
    {
      if Len() == 0 then Err(EOF) else Ok((data[pos], Reader(data, pos + 1)))
    }

    /** Reader.Seek(off, io.SeekCurrent) for a non-negative offset: moves
        the offset, past the end if need be, and never fails. */
    function Seek(off: nat): Reader
    {
      Reader(data, pos + off)
    }
  }

  /** bytes.NewReader. */
  function NewReader(data: seq<byte>): Reader
  {
    Reader(data, 0)
  }
}
