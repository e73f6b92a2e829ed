/** The loop shape shared by sectionFriends.UnmarshalBinary and
    sectionNodes.UnmarshalBinary (state/friend.go and state/state.go): while
    the reader has bytes left, read one record and append it, and stop at
    the first error.  Neither section stores a count. */
module StateRecords {
  import opened Bytes
  import opened Errors
  import opened GoReader

  /** A record read that, from a reader with bytes left, moves forward
      within the same input whenever it succeeds. */
  ghost predicate Advances<T>(step: Reader -> Result<(T, Reader)>)
  {
    forall r: Reader :: r.pos < |r.data| && step(r).Ok? ==>
      step(r).value.1.data == r.data && r.pos < step(r).value.1.pos <= |r.data|
  }

  /** The records the loop collects from offset `pos` on. */
  function ParseRecords<T>(step: Reader -> Result<(T, Reader)>, data: seq<byte>, pos: nat): Result<seq<T>>
    requires Advances(step)
    decreases |data| - pos
  {
    if pos >= |data| then Ok([])
    else
      match step(Reader(data, pos))
      case Err(e) => Err(e)
      case Ok((x, next)) =>
        match ParseRecords(step, data, next.pos)
        case Err(e) => Err(e)
        case Ok(more) => Ok([x] + more)
  }

  function PrependRecords<T>(xs: seq<T>, r: Result<seq<T>>): Result<seq<T>>
  {
    match r
    case Err(e) => Err(e)
    case Ok(more) => Ok(xs + more)
  }

  /** One pass of the loop, as ParseRecords sees it. */
  lemma ParseRecordsStep<T>(step: Reader -> Result<(T, Reader)>, data: seq<byte>, xs: seq<T>, pos: nat)
    requires Advances(step) && pos < |data|
    ensures step(Reader(data, pos)).Err? ==> ParseRecords(step, data, pos) == Err(step(Reader(data, pos)).error)
    ensures step(Reader(data, pos)).Ok? ==>
      PrependRecords(xs, ParseRecords(step, data, pos))
      == PrependRecords(xs + [step(Reader(data, pos)).value.0], ParseRecords(step, data, step(Reader(data, pos)).value.1.pos))
  {
    var s := step(Reader(data, pos));
    if s.Ok? {
      var rest := ParseRecords(step, data, s.value.1.pos);
      if rest.Ok? {
        assert xs + ([s.value.0] + rest.value) == xs + [s.value.0] + rest.value;
      }
    }
  }

  /** A record read at `pos`, followed by the records after it. */
  lemma ParseRecordsCons<T>(step: Reader -> Result<(T, Reader)>, data: seq<byte>, pos: nat, x: T, next: Reader, xs: seq<T>)
    requires Advances(step) && pos < |data|
    requires step(Reader(data, pos)) == Ok((x, next)) && ParseRecords(step, data, next.pos) == Ok(xs)
    ensures ParseRecords(step, data, pos) == Ok([x] + xs)
  {
  }

  /** The loop itself. */
  method ReadRecords<T>(step: Reader -> Result<(T, Reader)>, data: seq<byte>) returns (r: Result<seq<T>>)
    requires Advances(step)
    ensures r == ParseRecords(step, data, 0)
  {
    var reader := NewReader(data);
    var records: seq<T> := [];
    assert PrependRecords([], ParseRecords(step, data, 0)) == ParseRecords(step, data, 0) by {
      if ParseRecords(step, data, 0).Ok? {
        assert [] + ParseRecords(step, data, 0).value == ParseRecords(step, data, 0).value;
      }
    }
    while reader.Len() > 0
      invariant reader.data == data && reader.pos <= |data|
      invariant ParseRecords(step, data, 0) == PrependRecords(records, ParseRecords(step, data, reader.pos))
      decreases |data| - reader.pos
    {
      ParseRecordsStep(step, data, records, reader.pos);
      var next := step(reader);
      if next.Err? {
        return Err(next.error);
      }
      records := records + [next.value.0];
      reader := next.value.1;
    }
    assert records + [] == records;
    return Ok(records);
  }
}
