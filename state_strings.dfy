/** The fixed-width strings of the state file (writeStringWithSize and
    readStringWithSize in state/state.go).  A string occupies `size` bytes,
    zero-padded or cut short, then `padding` zero bytes, then its length as
    a big-endian uint16.  Go strings are modelled as their bytes. */
module StateStrings {
  import opened Bytes
  import opened Errors
  import opened GoReader

  /** The number of bytes a fixed-width string field occupies. */
  function FieldSize(size: nat, padding: nat): nat
  {
    size + padding + 2
  }

  /** writeStringWithSize: the first `size` bytes of `s`, zero-filled when
      `s` is shorter, the padding, then uint16(len(s)) big-endian, which is
      the full length modulo 2^16 even when the string was cut short. */
  function WriteStringWithSize(s: seq<byte>, size: nat, padding: nat): (w: seq<byte>)
    ensures |w| == FieldSize(size, padding)
    ensures w[..Min(|s|, size)] == s[..Min(|s|, size)]
    ensures AllZero(w[Min(|s|, size)..size + padding])
    ensures BE16(w[size + padding..]) == |s| % 0x1_0000
  {
    var k := Min(|s|, size);
    var w := s[..k] + Zeros(size - k) + Zeros(padding) + BE(|s| % 0x1_0000, 2);
    assert w[size + padding..] == BE(|s| % 0x1_0000, 2);
    BE16RoundTrip(|s| % 0x1_0000);
    assert w[k..size + padding] == Zeros(size - k) + Zeros(padding);
    w
  }

  /** The length field of a fixed-width string that starts at `off`. */
  function StoredLength(data: seq<byte>, off: nat, size: nat, padding: nat): uint16
    requires off + FieldSize(size, padding) <= |data|
  {
    BE16(data[off + size + padding..off + size + padding + 2])
  }

  /** readStringWithSize: a Read into a fresh `size`-byte buffer, a Seek
      over the padding, then the length with binary.Read, which must not
      exceed the buffer's size.  What it yields is stated by ReadWholeField
      and ReadCutShortField. */
  function ReadStringWithSize(r: Reader, size: nat, padding: nat): Result<(seq<byte>, Reader)>
  {
    match r.Read(size)
    case Err(e) => Err(e)
    case Ok((str, r1)) =>
      var r2 := if padding > 0 then r1.Seek(padding) else r1;
      match r2.ReadFull(2)
      case Err(e) => Err(e)
      case Ok((lenBytes, r3)) =>
        var n := BE16(lenBytes);
        if n > |str| then Err(InvalidStringSize(n, |str|)) else Ok((str[..n], r3))
  }

  /** A field that lies wholly within the input: the read succeeds exactly
      when the stored length fits, and the string is then the first
      `length` bytes of the field; the padding and the bytes after the
      string are not looked at. */
  lemma ReadWholeField(data: seq<byte>, off: nat, size: nat, padding: nat)
    requires off + FieldSize(size, padding) <= |data|
    ensures var n := StoredLength(data, off, size, padding);
      ReadStringWithSize(Reader(data, off), size, padding)
      == if n > size then Err(InvalidStringSize(n, size))
         else Ok((data[off..off + n], Reader(data, off + FieldSize(size, padding))))
  {
    var r := Reader(data, off);
    var str := r.Read(size).value.0;
    assert str == data[off..off + size];
    var lenBytes := data[off + size + padding..off + size + padding + 2];
    if padding > 0 {
      assert r.Read(size).value.1.Seek(padding).ReadFull(2) == Ok((lenBytes, Reader(data, off + FieldSize(size, padding))));
    }
    var n := BE16(lenBytes);
    if n <= size {
      assert str[..n] == data[off..off + n];
    }
  }

  /** A field cut short by the end of the input always fails, as the Read
      that comes up short leaves nothing for the length. */
  lemma ReadCutShortField(r: Reader, size: nat, padding: nat)
    requires r.pos + FieldSize(size, padding) > |r.data|
    ensures var res := ReadStringWithSize(r, size, padding);
      res.Err? && (res.error == EOF || res.error == UnexpectedEOF)
  {
  }

  /** What a field written with WriteStringWithSize holds, wherever it
      lies in the input: its stored length, and the string itself when it
      fits. */
  lemma WrittenStringAt(data: seq<byte>, off: nat, s: seq<byte>, size: nat, padding: nat)
    requires off + FieldSize(size, padding) <= |data|
    requires data[off..off + FieldSize(size, padding)] == WriteStringWithSize(s, size, padding)
    ensures StoredLength(data, off, size, padding) == |s| % 0x1_0000
    ensures |s| <= size ==> data[off..off + |s|] == s
  {
    var w := WriteStringWithSize(s, size, padding);
    assert data[off + size + padding..off + size + padding + 2] == w[size + padding..];
    if |s| <= size {
      assert Min(|s|, size) == |s| && s[..|s|] == s;
      assert data[off..off + |s|] == w[..|s|];
    }
  }

  /** Reading a field that holds the length of `s` and, when `s` fits,
      `s` itself. */
  lemma ReadFieldHolding(data: seq<byte>, off: nat, s: seq<byte>, size: nat, padding: nat)
    requires size < 0x1_0000 && off + FieldSize(size, padding) <= |data|
    requires StoredLength(data, off, size, padding) == |s| % 0x1_0000
    requires |s| <= size ==> data[off..off + |s|] == s
    ensures var res := ReadStringWithSize(Reader(data, off), size, padding);
      && (|s| <= size ==> res == Ok((s, Reader(data, off + FieldSize(size, padding)))))
      && (size < |s| < 0x1_0000 ==> res == Err(InvalidStringSize(|s|, size)))
  {
    ReadWholeField(data, off, size, padding);
  }

  /** Reading a field written with WriteStringWithSize, wherever it lies
      in the input. */
  lemma ReadWrittenString(data: seq<byte>, off: nat, s: seq<byte>, size: nat, padding: nat)
    requires size < 0x1_0000
    requires off + FieldSize(size, padding) <= |data|
    requires data[off..off + FieldSize(size, padding)] == WriteStringWithSize(s, size, padding)
    ensures var res := ReadStringWithSize(Reader(data, off), size, padding);
      && (|s| <= size ==> res == Ok((s, Reader(data, off + FieldSize(size, padding)))))
      && (size < |s| < 0x1_0000 ==> res == Err(InvalidStringSize(|s|, size)))
  {
    WrittenStringAt(data, off, s, size, padding);
    ReadFieldHolding(data, off, s, size, padding);
  }

  /** A string read back from its own field, wherever the field lies in the
      input, is the string written exactly when it fits in the field. */
  lemma StringRoundTrip(s: seq<byte>, size: nat, padding: nat, prefix: seq<byte>, suffix: seq<byte>)
    requires size < 0x1_0000
    ensures var data := prefix + WriteStringWithSize(s, size, padding) + suffix;
      var res := ReadStringWithSize(Reader(data, |prefix|), size, padding);
      && (res == Ok((s, Reader(data, |prefix| + FieldSize(size, padding)))) <==> |s| <= size)
      && (|s| <= size ==> res.Ok?)
  {
    var w := WriteStringWithSize(s, size, padding);
    var data := prefix + w + suffix;
    assert data[|prefix|..|prefix| + |w|] == w;
    ReadWrittenString(data, |prefix|, s, size, padding);
  }

  /** A string longer than its field, but shorter than 2^16 bytes, is cut
      short on write with its full length recorded, so reading it back
      fails with the recorded length. */
  lemma LongStringIsUnreadable(s: seq<byte>, size: nat, padding: nat, prefix: seq<byte>, suffix: seq<byte>)
    requires size < |s| < 0x1_0000
    ensures var data := prefix + WriteStringWithSize(s, size, padding) + suffix;
      ReadStringWithSize(Reader(data, |prefix|), size, padding) == Err(InvalidStringSize(|s|, size))
  {
    var w := WriteStringWithSize(s, size, padding);
    var data := prefix + w + suffix;
    assert data[|prefix|..|prefix| + |w|] == w;
    ReadWrittenString(data, |prefix|, s, size, padding);
  }
}
