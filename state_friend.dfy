/** The friends section of the state file (state/friend.go): friend records
    of 2216 bytes each, back to back in list order, with no count. */
module StateFriend {
  import opened Bytes
  import opened Errors
  import opened GoReader
  import opened StateStrings
  import opened StateRecords

  // maxNameSize, maxStatusMessageSize, maxRequestMessageSize
  const MaxNameSize: nat := 128
  const MaxStatusMessageSize: nat := 1007
  const MaxRequestMessageSize: nat := 1024

  /** Where each field of a friend record starts. */
  const KeyOffset: nat := 1
  const RequestMessageOffset: nat := 33
  const NameOffset: nat := 1060
  const StatusMessageOffset: nat := 1190
  const UserStatusOffset: nat := 2200
  const NospamOffset: nat := 2204
  const LastSeenOffset: nat := 2208
  const FriendSize: nat := 2216

  /** Friend.  The status and the user status are the FriendStatus and
      UserStatus bytes; the strings are their bytes. */
  datatype Friend = Friend(
    status: byte,
    userStatus: byte,
    publicKey: Key,
    requestMessage: seq<byte>,
    name: seq<byte>,
    statusMessage: seq<byte>,
    nospam: uint32,
    lastSeen: uint64)

  /** The strings fit their fields, so that the record can be read back. */
  predicate Fits(f: Friend)
  {
    |f.requestMessage| <= MaxRequestMessageSize && |f.name| <= MaxNameSize && |f.statusMessage| <= MaxStatusMessageSize
  }

  /** One friend record as the marshal loop writes it: status, key, the
      request message (1024 bytes and one padding byte), the name (128
      bytes), the status message (1007 bytes and one padding byte), the user
      status, three zero bytes, the nospam little-endian and the last-seen
      time big-endian. */
  function EncodeFriend(f: Friend): (e: seq<byte>)
    ensures |e| == FriendSize
  {
    FriendHead(f) + FriendStrings(f) + FriendTail(f)
  }

  function FriendHead(f: Friend): (e: seq<byte>)
    ensures |e| == RequestMessageOffset
  {
    [f.status] + f.publicKey
  }

  function FriendStrings(f: Friend): (e: seq<byte>)
    ensures |e| == UserStatusOffset - RequestMessageOffset
  {
    WriteStringWithSize(f.requestMessage, MaxRequestMessageSize, 1)
      + WriteStringWithSize(f.name, MaxNameSize, 0)
      + WriteStringWithSize(f.statusMessage, MaxStatusMessageSize, 1)
  }

  function FriendTail(f: Friend): (e: seq<byte>)
    ensures |e| == FriendSize - UserStatusOffset
  {
    [f.userStatus] + [0, 0, 0] + LE(f.nospam, 4) + BE(f.lastSeen, 8)
  }

  /** The records of a friend list, in list order. */
  function EncodeFriends(friends: seq<Friend>): seq<byte>
  {
    ConcatMap(friends, EncodeFriend)
  }

  /** sectionFriends.MarshalBinary. */
  method MarshalFriends(friends: seq<Friend>) returns (b: seq<byte>)
    ensures b == EncodeFriends(friends)
  {
    b := [];
    for i := 0 to |friends|
      invariant b == EncodeFriends(friends[..i])
    {
      assert friends[..i + 1][..i] == friends[..i];
      b := b + EncodeFriend(friends[i]);
    }
    assert friends[..|friends|] == friends;
  }

  // ---------------------------------------------------------------------
  // Reading

  /** The stored lengths of the three strings of the record at `p`. */
  function RequestLength(d: seq<byte>, p: nat): uint16
    requires p + FriendSize <= |d|
  {
    StoredLength(d, p + RequestMessageOffset, MaxRequestMessageSize, 1)
  }

  function NameLength(d: seq<byte>, p: nat): uint16
    requires p + FriendSize <= |d|
  {
    StoredLength(d, p + NameOffset, MaxNameSize, 0)
  }

  function StatusMessageLength(d: seq<byte>, p: nat): uint16
    requires p + FriendSize <= |d|
  {
    StoredLength(d, p + StatusMessageOffset, MaxStatusMessageSize, 1)
  }

  /** The stored lengths of the three strings of the record at `p` fit
      their fields. */
  predicate RecordLengthsOk(d: seq<byte>, p: nat)
    requires p + FriendSize <= |d|
  {
    && RequestLength(d, p) <= MaxRequestMessageSize
    && NameLength(d, p) <= MaxNameSize
    && StatusMessageLength(d, p) <= MaxStatusMessageSize
  }

  /** The friend the record at `p` holds, field by field. */
  function DecodeFriend(d: seq<byte>, p: nat): Friend
    requires p + FriendSize <= |d| && RecordLengthsOk(d, p)
  {
    Friend(
      d[p],
      d[p + UserStatusOffset],
      d[p + KeyOffset..p + RequestMessageOffset],
      d[p + RequestMessageOffset..p + RequestMessageOffset + RequestLength(d, p)],
      d[p + NameOffset..p + NameOffset + NameLength(d, p)],
      d[p + StatusMessageOffset..p + StatusMessageOffset + StatusMessageLength(d, p)],
      LE32(d[p + NospamOffset..p + LastSeenOffset]),
      BE64(d[p + LastSeenOffset..p + FriendSize]))
  }

  /** One pass of the unmarshal loop at the reader's offset: ReadByte, a
      Read for the key, readStringWithSize three times, ReadByte, a Seek
      over 3 bytes, then binary.Read of the nospam and the last-seen time.
      What it yields is stated by ReadWholeFriend and ReadCutShortFriend.
      Each read is a function of its own below, in the order of the loop. */
  function ReadFriend(r: Reader): Result<(Friend, Reader)>
  {
    match r.ReadByte()
    case Err(e) => Err(e)
    case Ok((status, r1)) =>
      match r1.Read(PublicKeySize)
      case Err(e) => Err(e)
      case Ok((key, r2)) => ReadRequestMessage(status, key, r2)
  }

  function ReadRequestMessage(status: byte, key: Key, r2: Reader): Result<(Friend, Reader)>
  {
    match ReadStringWithSize(r2, MaxRequestMessageSize, 1)
    case Err(e) => Err(e)
    case Ok((request, r3)) => ReadName(status, key, request, r3)
  }

  function ReadName(status: byte, key: Key, request: seq<byte>, r3: Reader): Result<(Friend, Reader)>
  {
    match ReadStringWithSize(r3, MaxNameSize, 0)
    case Err(e) => Err(e)
    case Ok((name, r4)) => ReadStatusMessage(status, key, request, name, r4)
  }

  function ReadStatusMessage(status: byte, key: Key, request: seq<byte>, name: seq<byte>, r4: Reader): Result<(Friend, Reader)>
  {
    match ReadStringWithSize(r4, MaxStatusMessageSize, 1)
    case Err(e) => Err(e)
    case Ok((statusMessage, r5)) => ReadFriendTail(status, key, request, name, statusMessage, r5)
  }

  /** The user status, the skipped padding, the nospam and the last-seen
      time. */
  function ReadFriendTail(status: byte, key: Key, request: seq<byte>, name: seq<byte>, statusMessage: seq<byte>, r5: Reader): Result<(Friend, Reader)>
  {
    match r5.ReadByte()
    case Err(e) => Err(e)
    case Ok((userStatus, r6)) =>
      match r6.Seek(3).ReadFull(4)
      case Err(e) => Err(e)
      case Ok((nospam, r7)) =>
        match r7.ReadFull(8)
        case Err(e) => Err(e)
        case Ok((lastSeen, r8)) =>
          Ok((Friend(status, userStatus, key, request, name, statusMessage, LE32(nospam), BE64(lastSeen)), r8))
  }

  /** The friend of the record at `p` with the given leading fields and
      the record's own trailing fields. */
  function WithTail(d: seq<byte>, p: nat, status: byte, key: Key, request: seq<byte>, name: seq<byte>, statusMessage: seq<byte>): Friend
    requires p + FriendSize <= |d|
  {
    Friend(status, d[p + UserStatusOffset], key, request, name, statusMessage,
      LE32(d[p + NospamOffset..p + LastSeenOffset]), BE64(d[p + LastSeenOffset..p + FriendSize]))
  }

  lemma ReadWholeTail(status: byte, key: Key, request: seq<byte>, name: seq<byte>, statusMessage: seq<byte>, d: seq<byte>, p: nat)
    requires p + FriendSize <= |d|
    ensures ReadFriendTail(status, key, request, name, statusMessage, Reader(d, p + UserStatusOffset))
         == Ok((WithTail(d, p, status, key, request, name, statusMessage), Reader(d, p + FriendSize)))
  {
  }

  /** What the reads from the status message on yield from a whole record,
      given the fields read before it. */
  function FromStatusMessage(d: seq<byte>, p: nat, status: byte, key: Key, request: seq<byte>, name: seq<byte>): Result<(Friend, Reader)>
    requires p + FriendSize <= |d|
  {
    var n3 := StatusMessageLength(d, p);
    if n3 > MaxStatusMessageSize then Err(InvalidStringSize(n3, MaxStatusMessageSize))
    else Ok((WithTail(d, p, status, key, request, name, d[p + StatusMessageOffset..p + StatusMessageOffset + n3]), Reader(d, p + FriendSize)))
  }

  /** What the reads from the name on yield from a whole record. */
  function FromName(d: seq<byte>, p: nat, status: byte, key: Key, request: seq<byte>): Result<(Friend, Reader)>
    requires p + FriendSize <= |d|
  {
    var n2 := NameLength(d, p);
    if n2 > MaxNameSize then Err(InvalidStringSize(n2, MaxNameSize))
    else FromStatusMessage(d, p, status, key, request, d[p + NameOffset..p + NameOffset + n2])
  }

  /** What the reads from the request message on yield from a whole
      record. */
  function FromRequestMessage(d: seq<byte>, p: nat, status: byte, key: Key): Result<(Friend, Reader)>
    requires p + FriendSize <= |d|
  {
    var n1 := RequestLength(d, p);
    if n1 > MaxRequestMessageSize then Err(InvalidStringSize(n1, MaxRequestMessageSize))
    else FromName(d, p, status, key, d[p + RequestMessageOffset..p + RequestMessageOffset + n1])
  }

  /** The reads after a string field, once that field has been read. */
  lemma StatusMessageStep(status: byte, key: Key, request: seq<byte>, name: seq<byte>, r4: Reader, res: Result<(seq<byte>, Reader)>)
    requires ReadStringWithSize(r4, MaxStatusMessageSize, 1) == res
    ensures ReadStatusMessage(status, key, request, name, r4)
         == match res
            case Err(e) => Err(e)
            case Ok((statusMessage, r5)) => ReadFriendTail(status, key, request, name, statusMessage, r5)
  {
  }

  lemma NameStep(status: byte, key: Key, request: seq<byte>, r3: Reader, res: Result<(seq<byte>, Reader)>)
    requires ReadStringWithSize(r3, MaxNameSize, 0) == res
    ensures ReadName(status, key, request, r3)
         == match res
            case Err(e) => Err(e)
            case Ok((name, r4)) => ReadStatusMessage(status, key, request, name, r4)
  {
  }

  lemma RequestMessageStep(status: byte, key: Key, r2: Reader, res: Result<(seq<byte>, Reader)>)
    requires ReadStringWithSize(r2, MaxRequestMessageSize, 1) == res
    ensures ReadRequestMessage(status, key, r2)
         == match res
            case Err(e) => Err(e)
            case Ok((request, r3)) => ReadName(status, key, request, r3)
  {
  }

  /** Each string field read from a whole record, and what follows it. */
  lemma ReadStatusMessageField(status: byte, key: Key, request: seq<byte>, name: seq<byte>, d: seq<byte>, p: nat)
    requires p + FriendSize <= |d|
    ensures var n := StatusMessageLength(d, p);
      ReadStatusMessage(status, key, request, name, Reader(d, p + StatusMessageOffset))
      == if n > MaxStatusMessageSize then Err(InvalidStringSize(n, MaxStatusMessageSize))
         else ReadFriendTail(status, key, request, name, d[p + StatusMessageOffset..p + StatusMessageOffset + n], Reader(d, p + UserStatusOffset))
  {
    ReadWholeField(d, p + StatusMessageOffset, MaxStatusMessageSize, 1);
    var n, r4 := StatusMessageLength(d, p), Reader(d, p + StatusMessageOffset);
    if n > MaxStatusMessageSize {
      StatusMessageStep(status, key, request, name, r4, Err(InvalidStringSize(n, MaxStatusMessageSize)));
    } else {
      StatusMessageStep(status, key, request, name, r4,
        Ok((d[p + StatusMessageOffset..p + StatusMessageOffset + n], Reader(d, p + UserStatusOffset))));
    }
  }

  lemma ReadNameField(status: byte, key: Key, request: seq<byte>, d: seq<byte>, p: nat)
    requires p + FriendSize <= |d|
    ensures var n := NameLength(d, p);
      ReadName(status, key, request, Reader(d, p + NameOffset))
      == if n > MaxNameSize then Err(InvalidStringSize(n, MaxNameSize))
         else ReadStatusMessage(status, key, request, d[p + NameOffset..p + NameOffset + n], Reader(d, p + StatusMessageOffset))
  {
    ReadWholeField(d, p + NameOffset, MaxNameSize, 0);
    var n, r3 := NameLength(d, p), Reader(d, p + NameOffset);
    if n > MaxNameSize {
      NameStep(status, key, request, r3, Err(InvalidStringSize(n, MaxNameSize)));
    } else {
      NameStep(status, key, request, r3, Ok((d[p + NameOffset..p + NameOffset + n], Reader(d, p + StatusMessageOffset))));
    }
  }

  lemma ReadRequestMessageField(status: byte, key: Key, d: seq<byte>, p: nat)
    requires p + FriendSize <= |d|
    ensures var n := RequestLength(d, p);
      ReadRequestMessage(status, key, Reader(d, p + RequestMessageOffset))
      == if n > MaxRequestMessageSize then Err(InvalidStringSize(n, MaxRequestMessageSize))
         else ReadName(status, key, d[p + RequestMessageOffset..p + RequestMessageOffset + n], Reader(d, p + NameOffset))
  {
    ReadWholeField(d, p + RequestMessageOffset, MaxRequestMessageSize, 1);
    var n, r2 := RequestLength(d, p), Reader(d, p + RequestMessageOffset);
    if n > MaxRequestMessageSize {
      RequestMessageStep(status, key, r2, Err(InvalidStringSize(n, MaxRequestMessageSize)));
    } else {
      RequestMessageStep(status, key, r2,
        Ok((d[p + RequestMessageOffset..p + RequestMessageOffset + n], Reader(d, p + NameOffset))));
    }
  }

  lemma ReadWholeStatusMessage(status: byte, key: Key, request: seq<byte>, name: seq<byte>, d: seq<byte>, p: nat)
    requires p + FriendSize <= |d|
    ensures ReadStatusMessage(status, key, request, name, Reader(d, p + StatusMessageOffset))
         == FromStatusMessage(d, p, status, key, request, name)
  {
    ReadStatusMessageField(status, key, request, name, d, p);
    var n := StatusMessageLength(d, p);
    if n <= MaxStatusMessageSize {
      ReadWholeTail(status, key, request, name, d[p + StatusMessageOffset..p + StatusMessageOffset + n], d, p);
    }
  }

  lemma ReadWholeName(status: byte, key: Key, request: seq<byte>, d: seq<byte>, p: nat)
    requires p + FriendSize <= |d|
    ensures ReadName(status, key, request, Reader(d, p + NameOffset)) == FromName(d, p, status, key, request)
  {
    ReadNameField(status, key, request, d, p);
    var n := NameLength(d, p);
    if n <= MaxNameSize {
      ReadWholeStatusMessage(status, key, request, d[p + NameOffset..p + NameOffset + n], d, p);
    }
  }

  lemma ReadWholeRequestMessage(status: byte, key: Key, d: seq<byte>, p: nat)
    requires p + FriendSize <= |d|
    ensures ReadRequestMessage(status, key, Reader(d, p + RequestMessageOffset)) == FromRequestMessage(d, p, status, key)
  {
    ReadRequestMessageField(status, key, d, p);
    var n := RequestLength(d, p);
    if n <= MaxRequestMessageSize {
      ReadWholeName(status, key, d[p + RequestMessageOffset..p + RequestMessageOffset + n], d, p);
    }
  }

  /** With a whole record left, the pass fails on the first string whose
      stored length exceeds its field, and otherwise yields the record's
      friend and the offset after the record. */
  lemma ReadWholeFriend(r: Reader)
    requires r.pos + FriendSize <= |r.data|
    ensures var d, p := r.data, r.pos;
      var n1, n2, n3 := RequestLength(d, p), NameLength(d, p), StatusMessageLength(d, p);
      ReadFriend(r)
      == if n1 > MaxRequestMessageSize then Err(InvalidStringSize(n1, MaxRequestMessageSize))
         else if n2 > MaxNameSize then Err(InvalidStringSize(n2, MaxNameSize))
         else if n3 > MaxStatusMessageSize then Err(InvalidStringSize(n3, MaxStatusMessageSize))
         else Ok((DecodeFriend(d, p), Reader(d, p + FriendSize)))
  {
    var d, p := r.data, r.pos;
    assert r.ReadByte() == Ok((d[p], Reader(d, p + 1)));
    var key := d[p + KeyOffset..p + RequestMessageOffset];
    assert Reader(d, p + 1).Read(PublicKeySize) == Ok((key, Reader(d, p + RequestMessageOffset)));
    ReadWholeRequestMessage(d[p], key, d, p);
  }

  /** With a whole record left whose stored lengths fit, the pass yields
      the record's friend. */
  lemma ReadFittingFriend(r: Reader)
    requires r.pos + FriendSize <= |r.data| && RecordLengthsOk(r.data, r.pos)
    ensures ReadFriend(r) == Ok((DecodeFriend(r.data, r.pos), Reader(r.data, r.pos + FriendSize)))
  {
    ReadWholeFriend(r);
  }

  lemma ReadCutShortTail(status: byte, key: Key, request: seq<byte>, name: seq<byte>, statusMessage: seq<byte>, d: seq<byte>, p: nat)
    requires p + FriendSize > |d|
    ensures ReadFriendTail(status, key, request, name, statusMessage, Reader(d, p + UserStatusOffset)).Err?
  {
  }

  lemma ReadCutShortStatusMessage(status: byte, key: Key, request: seq<byte>, name: seq<byte>, d: seq<byte>, p: nat)
    requires p + FriendSize > |d|
    ensures ReadStatusMessage(status, key, request, name, Reader(d, p + StatusMessageOffset)).Err?
  {
    var r4 := Reader(d, p + StatusMessageOffset);
    var s := ReadStringWithSize(r4, MaxStatusMessageSize, 1);
    StatusMessageStep(status, key, request, name, r4, s);
    if p + UserStatusOffset <= |d| {
      ReadWholeField(d, p + StatusMessageOffset, MaxStatusMessageSize, 1);
      if s.Ok? {
        ReadCutShortTail(status, key, request, name, s.value.0, d, p);
      }
    } else {
      ReadCutShortField(r4, MaxStatusMessageSize, 1);
    }
  }

  lemma ReadCutShortName(status: byte, key: Key, request: seq<byte>, d: seq<byte>, p: nat)
    requires p + FriendSize > |d|
    ensures ReadName(status, key, request, Reader(d, p + NameOffset)).Err?
  {
    var r3 := Reader(d, p + NameOffset);
    var s := ReadStringWithSize(r3, MaxNameSize, 0);
    NameStep(status, key, request, r3, s);
    if p + StatusMessageOffset <= |d| {
      ReadWholeField(d, p + NameOffset, MaxNameSize, 0);
      if s.Ok? {
        ReadCutShortStatusMessage(status, key, request, s.value.0, d, p);
      }
    } else {
      ReadCutShortField(r3, MaxNameSize, 0);
    }
  }

  lemma ReadCutShortRequestMessage(status: byte, key: Key, d: seq<byte>, p: nat)
    requires p + FriendSize > |d|
    ensures ReadRequestMessage(status, key, Reader(d, p + RequestMessageOffset)).Err?
  {
    var r2 := Reader(d, p + RequestMessageOffset);
    var s := ReadStringWithSize(r2, MaxRequestMessageSize, 1);
    RequestMessageStep(status, key, r2, s);
    if p + NameOffset <= |d| {
      ReadWholeField(d, p + RequestMessageOffset, MaxRequestMessageSize, 1);
      if s.Ok? {
        ReadCutShortName(status, key, s.value.0, d, p);
      }
    } else {
      ReadCutShortField(r2, MaxRequestMessageSize, 1);
    }
  }

  /** With less than a whole record left, the pass fails. */
  lemma ReadCutShortFriend(r: Reader)
    requires r.pos + FriendSize > |r.data|
    ensures ReadFriend(r).Err?
  {
    var d, p := r.data, r.pos;
    if p < |d| && p + RequestMessageOffset <= |d| {
      var key := d[p + KeyOffset..p + RequestMessageOffset];
      assert Reader(d, p + 1).Read(PublicKeySize) == Ok((key, Reader(d, p + RequestMessageOffset)));
      ReadCutShortRequestMessage(d[p], key, d, p);
    }
  }

  /** A pass advances over exactly one record when it succeeds. */
  lemma ReadFriendAdvances(r: Reader)
    ensures ReadFriend(r).Ok? ==> ReadFriend(r).value.1 == Reader(r.data, r.pos + FriendSize) && r.pos + FriendSize <= |r.data|
  {
    if r.pos + FriendSize <= |r.data| {
      ReadWholeFriend(r);
    } else {
      ReadCutShortFriend(r);
    }
  }

  /** A pass that succeeds moves over exactly one record, so the loop
      moves forward. */
  lemma ReadFriendLoops()
    ensures Advances(ReadFriend)
  {
    forall r: Reader | r.pos < |r.data| && ReadFriend(r).Ok?
      ensures ReadFriend(r).value.1.data == r.data && r.pos < ReadFriend(r).value.1.pos <= |r.data|
    {
      ReadFriendAdvances(r);
    }
  }

  /** The friends the unmarshal loop collects from offset `pos` on. */
  function ParseFriends(data: seq<byte>, pos: nat): Result<seq<Friend>>
  {
    ReadFriendLoops();
    ParseRecords(ReadFriend, data, pos)
  }

  /** sectionFriends.UnmarshalBinary. */
  method UnmarshalFriends(data: seq<byte>) returns (r: Result<seq<Friend>>)
    ensures r == ParseFriends(data, 0)
  {
    ReadFriendLoops();
    r := ReadRecords(ReadFriend, data);
  }

  // ---------------------------------------------------------------------
  // Properties

  /** Where each field of an encoded record lies. */
  lemma EncodeFriendLayout(f: Friend)
    ensures var e := EncodeFriend(f);
      && e[0] == f.status
      && e[KeyOffset..RequestMessageOffset] == f.publicKey
      && e[RequestMessageOffset..NameOffset] == WriteStringWithSize(f.requestMessage, MaxRequestMessageSize, 1)
      && e[NameOffset..StatusMessageOffset] == WriteStringWithSize(f.name, MaxNameSize, 0)
      && e[StatusMessageOffset..UserStatusOffset] == WriteStringWithSize(f.statusMessage, MaxStatusMessageSize, 1)
      && e[UserStatusOffset] == f.userStatus
      && e[NospamOffset..LastSeenOffset] == LE(f.nospam, 4)
      && e[LastSeenOffset..FriendSize] == BE(f.lastSeen, 8)
  {
    var e := EncodeFriend(f);
    var h, m, t := FriendHead(f), FriendStrings(f), FriendTail(f);
    assert e[..RequestMessageOffset] == h;
    SliceWithin(e, 0, h, KeyOffset, RequestMessageOffset);
    assert e[RequestMessageOffset..UserStatusOffset] == m;
    SliceWithin(e, RequestMessageOffset, m, 0, NameOffset - RequestMessageOffset);
    SliceWithin(e, RequestMessageOffset, m, NameOffset - RequestMessageOffset, StatusMessageOffset - RequestMessageOffset);
    SliceWithin(e, RequestMessageOffset, m, StatusMessageOffset - RequestMessageOffset, UserStatusOffset - RequestMessageOffset);
    assert e[UserStatusOffset..] == t;
    SliceWithin(e, UserStatusOffset, t, NospamOffset - UserStatusOffset, LastSeenOffset - UserStatusOffset);
    SliceWithin(e, UserStatusOffset, t, LastSeenOffset - UserStatusOffset, FriendSize - UserStatusOffset);
  }

  /** The stored length and the string of a request message field written
      from a string that fits. */
  lemma EncodedRequestMessage(s: seq<byte>, data: seq<byte>, off: nat)
    requires |s| <= MaxRequestMessageSize && off + FriendSize <= |data|
    requires data[off + RequestMessageOffset..off + NameOffset] == WriteStringWithSize(s, MaxRequestMessageSize, 1)
    ensures RequestLength(data, off) == |s|
    ensures data[off + RequestMessageOffset..off + RequestMessageOffset + |s|] == s
  {
    WrittenStringAt(data, off + RequestMessageOffset, s, MaxRequestMessageSize, 1);
  }

  lemma EncodedName(s: seq<byte>, data: seq<byte>, off: nat)
    requires |s| <= MaxNameSize && off + FriendSize <= |data|
    requires data[off + NameOffset..off + StatusMessageOffset] == WriteStringWithSize(s, MaxNameSize, 0)
    ensures NameLength(data, off) == |s|
    ensures data[off + NameOffset..off + NameOffset + |s|] == s
  {
    WrittenStringAt(data, off + NameOffset, s, MaxNameSize, 0);
  }

  lemma EncodedStatusMessage(s: seq<byte>, data: seq<byte>, off: nat)
    requires |s| <= MaxStatusMessageSize && off + FriendSize <= |data|
    requires data[off + StatusMessageOffset..off + UserStatusOffset] == WriteStringWithSize(s, MaxStatusMessageSize, 1)
    ensures StatusMessageLength(data, off) == |s|
    ensures data[off + StatusMessageOffset..off + StatusMessageOffset + |s|] == s
  {
    WrittenStringAt(data, off + StatusMessageOffset, s, MaxStatusMessageSize, 1);
  }

  /** Where the three string fields of a record written from a friend lie. */
  lemma EncodedStringFields(f: Friend, data: seq<byte>, off: nat)
    requires off + FriendSize <= |data| && data[off..off + FriendSize] == EncodeFriend(f)
    ensures data[off + RequestMessageOffset..off + NameOffset] == WriteStringWithSize(f.requestMessage, MaxRequestMessageSize, 1)
    ensures data[off + NameOffset..off + StatusMessageOffset] == WriteStringWithSize(f.name, MaxNameSize, 0)
    ensures data[off + StatusMessageOffset..off + UserStatusOffset] == WriteStringWithSize(f.statusMessage, MaxStatusMessageSize, 1)
  {
    var e := EncodeFriend(f);
    EncodeFriendLayout(f);
    SliceWithin(data, off, e, RequestMessageOffset, NameOffset);
    SliceWithin(data, off, e, NameOffset, StatusMessageOffset);
    SliceWithin(data, off, e, StatusMessageOffset, UserStatusOffset);
  }

  /** The fixed-width fields of a record written from a friend. */
  lemma EncodedFixedFields(f: Friend, data: seq<byte>, off: nat)
    requires off + FriendSize <= |data| && data[off..off + FriendSize] == EncodeFriend(f)
    ensures data[off] == f.status && data[off + UserStatusOffset] == f.userStatus
    ensures data[off + KeyOffset..off + RequestMessageOffset] == f.publicKey
    ensures LE32(data[off + NospamOffset..off + LastSeenOffset]) == f.nospam
    ensures BE64(data[off + LastSeenOffset..off + FriendSize]) == f.lastSeen
  {
    var e := EncodeFriend(f);
    EncodeFriendLayout(f);
    SliceWithin(data, off, e, KeyOffset, RequestMessageOffset);
    SliceWithin(data, off, e, NospamOffset, LastSeenOffset);
    SliceWithin(data, off, e, LastSeenOffset, FriendSize);
    assert data[off] == e[0] && data[off + UserStatusOffset] == e[UserStatusOffset];
    LE32RoundTrip(f.nospam);
    BE64RoundTrip(f.lastSeen);
  }

  /** A record written from a friend whose strings fit is read back as that
      friend. */
  lemma DecodeEncodeFriend(f: Friend, data: seq<byte>, off: nat)
    requires Fits(f)
    requires off + FriendSize <= |data| && data[off..off + FriendSize] == EncodeFriend(f)
    ensures RecordLengthsOk(data, off) && DecodeFriend(data, off) == f
  {
    EncodedStringFields(f, data, off);
    EncodedRequestMessage(f.requestMessage, data, off);
    EncodedName(f.name, data, off);
    EncodedStatusMessage(f.statusMessage, data, off);
    EncodedFixedFields(f, data, off);
  }

  /** One pass over a record written from a friend whose strings fit. */
  lemma ReadEncodedFriend(f: Friend, data: seq<byte>, off: nat)
    requires Fits(f)
    requires off + FriendSize <= |data| && data[off..off + FriendSize] == EncodeFriend(f)
    ensures ReadFriend(Reader(data, off)) == Ok((f, Reader(data, off + FriendSize)))
  {
    DecodeEncodeFriend(f, data, off);
    ReadFittingFriend(Reader(data, off));
  }

  /** Friends whose strings fit survive marshalling and unmarshalling, in
      order, wherever their records start. */
  lemma {:induction false} FriendsRoundTrip(friends: seq<Friend>, prefix: seq<byte>)
    requires forall i :: 0 <= i < |friends| ==> Fits(friends[i])
    ensures ParseFriends(prefix + EncodeFriends(friends), |prefix|) == Ok(friends)
    decreases |friends|
  {
    var data := prefix + EncodeFriends(friends);
    if |friends| > 0 {
      var f, rest := friends[0], friends[1..];
      assert friends == [f] + rest;
      ConcatMapCons(f, rest, EncodeFriend);
      var e := EncodeFriend(f);
      assert data == (prefix + e) + EncodeFriends(rest);
      assert data[|prefix|..|prefix| + FriendSize] == e;
      ReadEncodedFriend(f, data, |prefix|);
      FriendsRoundTrip(rest, prefix + e);
    }
  }

  /** Where the k-th record after `pos` starts. */
  function RecordStart(pos: nat, k: nat): nat
  {
    pos + k * FriendSize
  }

  /** The input from `pos` on is whole records whose stored lengths fit. */
  ghost predicate WholeRecords(data: seq<byte>, pos: nat)
    requires pos <= |data|
  {
    && (|data| - pos) % FriendSize == 0
    && forall k: nat :: RecordStart(pos, k) + FriendSize <= |data| ==> RecordLengthsOk(data, RecordStart(pos, k))
  }

  /** `fs` are the records from `pos` to the end of the input, decoded in
      order. */
  predicate DecodesAs(data: seq<byte>, pos: nat, fs: seq<Friend>)
  {
    && RecordStart(pos, |fs|) == |data|
    && forall k :: 0 <= k < |fs| ==>
         RecordStart(pos, k) + FriendSize <= |data| && RecordLengthsOk(data, RecordStart(pos, k))
         && fs[k] == DecodeFriend(data, RecordStart(pos, k))
  }

  /** The unmarshal loop succeeds exactly on whole records whose stored
      lengths fit: it fails when the input ends inside a record or a stored
      length exceeds its field.  The friends are then the records decoded
      in order. */
  lemma {:induction false} ParseFriendsMeaning(data: seq<byte>, pos: nat)
    requires pos <= |data|
    ensures ParseFriends(data, pos).Ok? <==> WholeRecords(data, pos)
    ensures ParseFriends(data, pos).Ok? ==> DecodesAs(data, pos, ParseFriends(data, pos).value)
    decreases |data| - pos
  {
    assert RecordStart(pos, 0) == pos;
    if pos == |data| {
      assert forall k: nat :: RecordStart(pos, k) + FriendSize > |data|;
    } else if pos + FriendSize > |data| {
      ReadCutShortFriend(Reader(data, pos));
      assert (|data| - pos) % FriendSize == |data| - pos;
    } else {
      ReadWholeFriend(Reader(data, pos));
      if RecordLengthsOk(data, pos) {
        ParseFriendsMeaning(data, pos + FriendSize);
        WholeRecordsStep(data, pos);
        var rest := ParseFriends(data, pos + FriendSize);
        if rest.Ok? {
          assert ParseFriends(data, pos) == Ok([DecodeFriend(data, pos)] + rest.value);
          DecodesAsCons(data, pos, rest.value);
        }
      }
    }
  }

  lemma RecordStartNext(pos: nat, k: nat)
    ensures RecordStart(pos + FriendSize, k) == RecordStart(pos, k + 1)
  {
  }

  /** WholeRecords at `pos` is a fitting record at `pos` and WholeRecords
      after it. */
  lemma WholeRecordsStep(data: seq<byte>, pos: nat)
    requires pos + FriendSize <= |data|
    ensures WholeRecords(data, pos) <==> RecordLengthsOk(data, pos) && WholeRecords(data, pos + FriendSize)
  {
    var next := pos + FriendSize;
    assert (|data| - pos) % FriendSize == (|data| - next) % FriendSize;
    assert RecordStart(pos, 0) == pos;
    if WholeRecords(data, pos) {
      forall k: nat | RecordStart(next, k) + FriendSize <= |data|
        ensures RecordLengthsOk(data, RecordStart(next, k))
      {
        RecordStartNext(pos, k);
      }
    }
    if RecordLengthsOk(data, pos) && WholeRecords(data, next) {
      forall k: nat | RecordStart(pos, k) + FriendSize <= |data|
        ensures RecordLengthsOk(data, RecordStart(pos, k))
      {
        if k > 0 {
          RecordStartNext(pos, k - 1);
        }
      }
    }
  }

  /** A fitting record followed by decoded records. */
  lemma DecodesAsCons(data: seq<byte>, pos: nat, rest: seq<Friend>)
    requires pos + FriendSize <= |data| && RecordLengthsOk(data, pos)
    requires DecodesAs(data, pos + FriendSize, rest)
    ensures DecodesAs(data, pos, [DecodeFriend(data, pos)] + rest)
  {
    var fs := [DecodeFriend(data, pos)] + rest;
    RecordStartNext(pos, |rest|);
    assert RecordStart(pos, 0) == pos;
    forall k | 0 <= k < |fs|
      ensures RecordStart(pos, k) + FriendSize <= |data| && RecordLengthsOk(data, RecordStart(pos, k))
           && fs[k] == DecodeFriend(data, RecordStart(pos, k))
    {
      if k > 0 {
        RecordStartNext(pos, k - 1);
        assert fs[k] == rest[k - 1];
      }
    }
  }

  /** The byte at offset `i` of the record at `p`. */
  function RecordByte(d: seq<byte>, p: nat, i: nat): byte
    requires p + i < |d|
  {
    d[p + i]
  }

  /** The padding byte after the request message, the one after the
      status message, and the three after the user status. */
  predicate PaddingByte(i: nat)
  {
    i == NameOffset - 3 || i == UserStatusOffset - 3 || UserStatusOffset < i < NospamOffset
  }

  lemma SameSlice(d: seq<byte>, d': seq<byte>, p: nat, a: nat, b: nat)
    requires a <= b && p + b <= |d| && p + b <= |d'|
    requires forall i: nat :: a <= i < b ==> RecordByte(d, p, i) == RecordByte(d', p, i)
    ensures d[p + a..p + b] == d'[p + a..p + b]
  {
    var s, s' := d[p + a..p + b], d'[p + a..p + b];
    forall j | 0 <= j < |s|
      ensures s[j] == s'[j]
    {
      assert RecordByte(d, p, a + j) == RecordByte(d', p, a + j);
    }
  }

  lemma PaddingKeepsLengths(d: seq<byte>, d': seq<byte>, p: nat)
    requires p + FriendSize <= |d| && p + FriendSize <= |d'|
    requires forall i: nat :: i < FriendSize && !PaddingByte(i) ==> RecordByte(d, p, i) == RecordByte(d', p, i)
    ensures RequestLength(d, p) == RequestLength(d', p)
    ensures NameLength(d, p) == NameLength(d', p)
    ensures StatusMessageLength(d, p) == StatusMessageLength(d', p)
  {
    SameSlice(d, d', p, NameOffset - 2, NameOffset);
    SameSlice(d, d', p, StatusMessageOffset - 2, StatusMessageOffset);
    SameSlice(d, d', p, UserStatusOffset - 2, UserStatusOffset);
  }

  /** The fields of two records that differ only in padding bytes, where
      the stored lengths fit. */
  lemma PaddingKeepsFields(d: seq<byte>, d': seq<byte>, p: nat)
    requires p + FriendSize <= |d| && p + FriendSize <= |d'|
    requires forall i: nat :: i < FriendSize && !PaddingByte(i) ==> RecordByte(d, p, i) == RecordByte(d', p, i)
    requires RecordLengthsOk(d, p)
    ensures d[p] == d'[p] && d[p + UserStatusOffset] == d'[p + UserStatusOffset]
    ensures d[p + KeyOffset..p + RequestMessageOffset] == d'[p + KeyOffset..p + RequestMessageOffset]
    ensures var n := RequestLength(d, p);
      d[p + RequestMessageOffset..p + RequestMessageOffset + n] == d'[p + RequestMessageOffset..p + RequestMessageOffset + n]
    ensures var n := NameLength(d, p);
      d[p + NameOffset..p + NameOffset + n] == d'[p + NameOffset..p + NameOffset + n]
    ensures var n := StatusMessageLength(d, p);
      d[p + StatusMessageOffset..p + StatusMessageOffset + n] == d'[p + StatusMessageOffset..p + StatusMessageOffset + n]
    ensures d[p + NospamOffset..p + FriendSize] == d'[p + NospamOffset..p + FriendSize]
  {
    SameSlice(d, d', p, KeyOffset, RequestMessageOffset);
    SameSlice(d, d', p, RequestMessageOffset, RequestMessageOffset + RequestLength(d, p));
    SameSlice(d, d', p, NameOffset, NameOffset + NameLength(d, p));
    SameSlice(d, d', p, StatusMessageOffset, StatusMessageOffset + StatusMessageLength(d, p));
    SameSlice(d, d', p, NospamOffset, FriendSize);
    assert RecordByte(d, p, 0) == RecordByte(d', p, 0);
    assert RecordByte(d, p, UserStatusOffset) == RecordByte(d', p, UserStatusOffset);
  }

  /** Records that differ only in padding bytes have the same stored
      lengths and decode alike. */
  lemma PaddingIgnoredDecode(d: seq<byte>, d': seq<byte>, p: nat)
    requires p + FriendSize <= |d| && p + FriendSize <= |d'|
    requires forall i: nat :: i < FriendSize && !PaddingByte(i) ==> RecordByte(d, p, i) == RecordByte(d', p, i)
    ensures RequestLength(d, p) == RequestLength(d', p)
    ensures NameLength(d, p) == NameLength(d', p)
    ensures StatusMessageLength(d, p) == StatusMessageLength(d', p)
    ensures RecordLengthsOk(d, p) ==> RecordLengthsOk(d', p) && DecodeFriend(d, p) == DecodeFriend(d', p)
  {
    PaddingKeepsLengths(d, d', p);
    if RecordLengthsOk(d, p) {
      PaddingKeepsFields(d, d', p);
      var t, t' := d[p + NospamOffset..p + FriendSize], d'[p + NospamOffset..p + FriendSize];
      assert d[p + NospamOffset..p + LastSeenOffset] == t[..4] && d'[p + NospamOffset..p + LastSeenOffset] == t'[..4];
      assert d[p + LastSeenOffset..p + FriendSize] == t[4..] && d'[p + LastSeenOffset..p + FriendSize] == t'[4..];
    }
  }

  /** The padding bytes are skipped without being looked at: a pass over
      two records that differ only there yields the same outcome. */
  lemma PaddingIgnored(d: seq<byte>, d': seq<byte>, p: nat)
    requires p + FriendSize <= |d| && p + FriendSize <= |d'|
    requires forall i: nat :: i < FriendSize && !PaddingByte(i) ==> RecordByte(d, p, i) == RecordByte(d', p, i)
    ensures ReadFriend(Reader(d, p)).Err? == ReadFriend(Reader(d', p)).Err?
    ensures ReadFriend(Reader(d, p)).Err? ==> ReadFriend(Reader(d, p)).error == ReadFriend(Reader(d', p)).error
    ensures ReadFriend(Reader(d, p)).Ok? ==> ReadFriend(Reader(d, p)).value.0 == ReadFriend(Reader(d', p)).value.0
  {
    PaddingIgnoredDecode(d, d', p);
    ReadWholeFriend(Reader(d, p));
    ReadWholeFriend(Reader(d', p));
  }
}
