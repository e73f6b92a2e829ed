/** The Tox save file of state/state.go: four zero bytes and a global
    cookie, then sections, each a little-endian header (body length, type,
    cookie) and a body, up to an End section.  The DHT section holds
    sub-sections of its own behind a second cookie.  Friends are read by
    StateFriend, node records by Node.UnmarshalBinary of DhtPackets. */
module StateFile {
  import opened Bytes
  import opened Errors
  import opened GoReader
  import opened StateRecords
  import opened DhtPackets
  import StateFriend

  const CookieGlobal: uint32 := 0x15ED1B1F
  const CookieDHTGlobal: uint32 := 0x159000D
  const CookieInner: uint16 := 0x01CE
  const CookieDHTInner: uint16 := 0x11CE

  const SectionTypeNospamKeys: uint16 := 1
  const SectionTypeDHT: uint16 := 2
  const SectionTypeFriends: uint16 := 3
  const SectionTypeName: uint16 := 4
  const SectionTypeStatusMessage: uint16 := 5
  const SectionTypeStatus: uint16 := 6
  const SectionTypeTCPRelay: uint16 := 10
  const SectionTypePathNode: uint16 := 11
  const SectionTypeEnd: uint16 := 0xFF

  const DhtSectionTypeNodes: uint16 := 4

  /** Length, type and cookie of a section. */
  const SectionHeaderSize: nat := 8

  /** State.  The keys are Go pointers, `None` while nil; strings are
      their bytes. */
  datatype State = State(
    publicKey: Option<Key>,
    secretKey: Option<Key>,
    nospam: uint32,
    name: seq<byte>,
    statusMessage: seq<byte>,
    status: byte,
    friends: seq<StateFriend.Friend>,
    nodes: seq<Node>,
    tcpRelays: seq<Node>,
    pathNodes: seq<Node>)

  /** The State a fresh Go value starts as: nil keys, zeros, empty lists. */
  const EmptyState := State(None, None, 0, [], [], 0, [], [], [], [])

  /** A section as readSection returns it. */
  datatype Section = Section(sectionType: uint16, body: seq<byte>)

  /** sectionNospamKeys. */
  datatype NospamKeys = NospamKeys(nospam: uint32, publicKey: Key, secretKey: Key)

  // ---------------------------------------------------------------------
  // Sections

  /** writeSection: the body length as uint32, the type and the cookie,
      all little-endian, then the body. */
  function WriteSection(sectionType: uint16, cookie: uint16, body: seq<byte>): (w: seq<byte>)
    ensures |w| == SectionHeaderSize + |body|
  {
    LE(|body| % 0x1_0000_0000, 4) + LE(sectionType, 2) + LE(cookie, 2) + body
  }

  /** The fields of a written section read back: the length (modulo 2^32,
      as Go's uint32 conversion wraps), the type, the cookie, the body. */
  lemma WriteSectionFields(sectionType: uint16, cookie: uint16, body: seq<byte>)
    ensures var w := WriteSection(sectionType, cookie, body);
      && LE32(w[..4]) == |body| % 0x1_0000_0000
      && LE16(w[4..6]) == sectionType && LE16(w[6..8]) == cookie
      && w[SectionHeaderSize..] == body
  {
    var a, b, c := LE(|body| % 0x1_0000_0000, 4), LE(sectionType, 2), LE(cookie, 2);
    var w := WriteSection(sectionType, cookie, body);
    assert w == a + b + c + body;
    assert w[..4] == a && w[4..6] == b && w[6..8] == c;
    LE32RoundTrip(|body| % 0x1_0000_0000);
    LE16RoundTrip(sectionType);
    LE16RoundTrip(cookie);
  }

  /** readSection: binary.Read of the length and the type; type End is
      returned at once, before the cookie is read.  Otherwise the cookie
      must be the expected one, and the body is a Read into a fresh
      buffer of the stated length: zero-filled when the input ends early,
      EOF when no byte at all is left, even for an empty body. */
  function ReadSection(r: Reader, expectedCookie: uint16): (res: Result<(Section, Reader)>)
    ensures res.Ok? ==> res.value.1.data == r.data && r.pos + 6 <= res.value.1.pos <= |r.data|
  {
    match r.ReadFull(4)
    case Err(e) => Err(e)
    case Ok((lengthBytes, r1)) =>
      match r1.ReadFull(2)
      case Err(e) => Err(e)
      case Ok((typeBytes, r2)) =>
        if LE16(typeBytes) == SectionTypeEnd then Ok((Section(SectionTypeEnd, []), r2))
        else
          match r2.ReadFull(2)
          case Err(e) => Err(e)
          case Ok((cookieBytes, r3)) =>
            if LE16(cookieBytes) != expectedCookie then Err(InnerCookieError(expectedCookie, LE16(cookieBytes)))
            else
              match r3.Read(LE32(lengthBytes))
              case Err(e) => Err(e)
              case Ok((body, r4)) => Ok((Section(LE16(typeBytes), body), r4))
  }

  /** The type field of the section header at `p`. */
  function TypeAt(data: seq<byte>, p: nat): uint16
    requires p + 6 <= |data|
  {
    LE16(data[p + 4..p + 6])
  }

  /** An End type ends the read right after the type field, whatever
      follows and however short the input then is. */
  lemma ReadSectionEnd(data: seq<byte>, p: nat, expectedCookie: uint16)
    requires p + 6 <= |data| && TypeAt(data, p) == SectionTypeEnd
    ensures ReadSection(Reader(data, p), expectedCookie) == Ok((Section(SectionTypeEnd, []), Reader(data, p + 6)))
  {
  }

  /** Any other type needs the cookie, and a wrong cookie is reported with
      the value found. */
  lemma ReadSectionWrongCookie(data: seq<byte>, p: nat, expectedCookie: uint16)
    requires p + SectionHeaderSize <= |data| && TypeAt(data, p) != SectionTypeEnd
    requires LE16(data[p + 6..p + 8]) != expectedCookie
    ensures ReadSection(Reader(data, p), expectedCookie) == Err(InnerCookieError(expectedCookie, LE16(data[p + 6..p + 8])))
  {
  }

  /** With a whole header of another type and the expected cookie, the
      body is the stated number of bytes, those the input lacks as zeros;
      with no byte after the header the read fails with EOF, even when
      the stated length is 0. */
  lemma ReadSectionBody(data: seq<byte>, p: nat, expectedCookie: uint16)
    requires p + SectionHeaderSize <= |data| && TypeAt(data, p) != SectionTypeEnd
    requires LE16(data[p + 6..p + 8]) == expectedCookie
    ensures var n, b := LE32(data[p..p + 4]), p + SectionHeaderSize;
      var k := Min(n, |data| - b);
      ReadSection(Reader(data, p), expectedCookie)
      == if b == |data| then Err(EOF)
         else Ok((Section(TypeAt(data, p), data[b..b + k] + Zeros(n - k)), Reader(data, b + k)))
  {
  }

  /** The header fields and the body of a section written at `p`. */
  lemma WrittenSectionAt(data: seq<byte>, p: nat, sec: Section, cookie: uint16)
    requires |sec.body| < 0x1_0000_0000 && p + SectionHeaderSize + |sec.body| <= |data|
    requires data[p..p + SectionHeaderSize + |sec.body|] == WriteSection(sec.sectionType, cookie, sec.body)
    ensures LE32(data[p..p + 4]) == |sec.body| && TypeAt(data, p) == sec.sectionType
    ensures LE16(data[p + 6..p + 8]) == cookie
    ensures data[p + SectionHeaderSize..p + SectionHeaderSize + |sec.body|] == sec.body
  {
    var w := WriteSection(sec.sectionType, cookie, sec.body);
    WriteSectionFields(sec.sectionType, cookie, sec.body);
    SliceWithin(data, p, w, 0, 4);
    SliceWithin(data, p, w, 4, 6);
    SliceWithin(data, p, w, 6, 8);
    SliceWithin(data, p, w, SectionHeaderSize, |w|);
  }

  /** A section written with WriteSection, wherever it lies in the input,
      is read back as written, unless its body is empty and nothing
      follows it. */
  lemma ReadWrittenSection(prefix: seq<byte>, t: uint16, cookie: uint16, body: seq<byte>, suffix: seq<byte>)
    requires t != SectionTypeEnd && |body| < 0x1_0000_0000
    ensures var data := prefix + WriteSection(t, cookie, body) + suffix;
      var res := ReadSection(Reader(data, |prefix|), cookie);
      && (|body| + |suffix| > 0 ==> res == Ok((Section(t, body), Reader(data, |prefix| + SectionHeaderSize + |body|))))
      && (|body| + |suffix| == 0 ==> res == Err(EOF))
  {
    var w := WriteSection(t, cookie, body);
    var data := prefix + w + suffix;
    var p, b := |prefix|, |prefix| + SectionHeaderSize;
    assert data[p..p + |w|] == w;
    WrittenSectionAt(data, p, Section(t, body), cookie);
    ReadSectionBody(data, p, cookie);
    if |body| + |suffix| > 0 {
      assert data[b..b + |body|] + Zeros(0) == body;
    }
  }

  /** An End section written with WriteSection ends the read. */
  lemma ReadWrittenEnd(prefix: seq<byte>, cookie: uint16, suffix: seq<byte>)
    ensures var data := prefix + WriteSection(SectionTypeEnd, cookie, []) + suffix;
      ReadSection(Reader(data, |prefix|), cookie) == Ok((Section(SectionTypeEnd, []), Reader(data, |prefix| + 6)))
  {
    var w := WriteSection(SectionTypeEnd, cookie, []);
    WriteSectionFields(SectionTypeEnd, cookie, []);
    var data := prefix + w + suffix;
    assert data[|prefix|..|prefix| + |w|] == w;
    SliceWithin(data, |prefix|, w, 4, 6);
    ReadSectionEnd(data, |prefix|, cookie);
  }

  // ---------------------------------------------------------------------
  // The nospam and keys section

  /** sectionNospamKeys.MarshalBinary: the nospam little-endian, the
      public key, the secret key. */
  function EncodeNospamKeys(k: NospamKeys): (e: seq<byte>)
    ensures |e| == 4 + PublicKeySize + SecretKeySize
  {
    LE(k.nospam, 4) + k.publicKey + k.secretKey
  }

  /** What sectionNospamKeys.UnmarshalBinary accepts: a whole nospam (it
      is read with binary.Read) and at least one byte of each key (they
      are read with Read, so a short secret key is zero-filled); bytes
      after the secret key are ignored. */
  function ParseNospamKeys(data: seq<byte>): Result<NospamKeys>
  {
    if |data| == 0 then Err(EOF)
    else if |data| < 4 then Err(UnexpectedEOF)
    else if |data| <= 4 + PublicKeySize then Err(EOF)
    else Ok(NospamKeys(LE32(data[..4]), data[4..4 + PublicKeySize], PadKey(data[4 + PublicKeySize..])))
  }

  /** sectionNospamKeys.UnmarshalBinary. */
  method UnmarshalNospamKeys(data: seq<byte>) returns (r: Result<NospamKeys>)
    ensures r == ParseNospamKeys(data)
  {
    var reader := NewReader(data);
    var nospam := reader.ReadFull(4);
    if nospam.Err? {
      return Err(nospam.error);
    }
    reader := nospam.value.1;
    var pk := reader.Read(PublicKeySize);
    if pk.Err? {
      return Err(pk.error);
    }
    reader := pk.value.1;
    var sk := reader.Read(SecretKeySize);
    if sk.Err? {
      return Err(sk.error);
    }
    assert pk.value.0 == data[4..4 + PublicKeySize];
    ReadPadsKey(reader);
    return Ok(NospamKeys(LE32(nospam.value.0), pk.value.0, sk.value.0));
  }

  lemma NospamKeysRoundTrip(k: NospamKeys)
    ensures ParseNospamKeys(EncodeNospamKeys(k)) == Ok(k)
  {
    var e := EncodeNospamKeys(k);
    assert e[..4] == LE(k.nospam, 4);
    assert e[4..4 + PublicKeySize] == k.publicKey;
    assert e[4 + PublicKeySize..] == k.secretKey;
    assert PadKey(k.secretKey) == k.secretKey[..PublicKeySize] + [] == k.secretKey;
    LE32RoundTrip(k.nospam);
  }

  // ---------------------------------------------------------------------
  // Node sections

  /** sectionNodes.MarshalBinary: the node records back to back, with no
      count. */
  method MarshalNodeSection(nodes: seq<Node>) returns (b: seq<byte>)
    ensures b == MarshalNodes(nodes)
  {
    b := [];
    for i := 0 to |nodes|
      invariant b == MarshalNodes(nodes[..i])
    {
      assert nodes[..i + 1][..i] == nodes[..i];
      b := b + MarshalNode(nodes[i]);
    }
    assert nodes[..|nodes|] == nodes;
  }

  /** One pass of the sectionNodes.UnmarshalBinary loop: the family byte
      with binary.Read, then the rest of the record with one Read into a
      zeroed buffer of the family's size, then Node.UnmarshalBinary of
      the whole buffer. */
  function ReadNodeEntry(r: Reader): Result<(Node, Reader)>
  {
    match r.ReadFull(1)
    case Err(e) => Err(e)
    case Ok((t, r1)) =>
      if !ValidFamily(t[0]) then Err(UnknownAddressFamily(t[0]))
      else
        match r1.Read(NodeSize(t[0]) - 1)
        case Err(e) => Err(e)
        case Ok((rest, r2)) =>
          match ParseNode([t[0]] + rest)
          case Err(e) => Err(e)
          case Ok(node) => Ok((node, r2))
  }

  /** A pass rejects an unknown family and a family byte that ends the
      input; otherwise it decodes the record, zero-filling what the input
      lacks, and moves past it. */
  lemma ReadNodeEntryMeaning(data: seq<byte>, pos: nat)
    requires pos < |data|
    ensures !ValidFamily(data[pos]) ==> ReadNodeEntry(Reader(data, pos)) == Err(UnknownAddressFamily(data[pos]))
    ensures ValidFamily(data[pos]) && pos + 1 == |data| ==> ReadNodeEntry(Reader(data, pos)) == Err(EOF)
    ensures ValidFamily(data[pos]) && pos + 1 < |data| ==>
      && ParseNode(NodeRecordAt(data, pos)).Ok?
      && ReadNodeEntry(Reader(data, pos))
         == Ok((ParseNode(NodeRecordAt(data, pos)).value, Reader(data, Min(pos + NodeSize(data[pos]), |data|))))
  {
    if ValidFamily(data[pos]) && pos + 1 < |data| {
      ReadRestOfRecord(data, pos);
    }
  }

  lemma ReadNodeEntryLoops()
    ensures Advances(ReadNodeEntry)
  {
    forall r: Reader | r.pos < |r.data| && ReadNodeEntry(r).Ok?
      ensures ReadNodeEntry(r).value.1.data == r.data && r.pos < ReadNodeEntry(r).value.1.pos <= |r.data|
    {
      ReadNodeEntryMeaning(r.data, r.pos);
    }
  }

  /** The nodes the sectionNodes loop collects from offset `pos` on. */
  function ParseNodeSection(data: seq<byte>, pos: nat): Result<seq<Node>>
  {
    ReadNodeEntryLoops();
    ParseRecords(ReadNodeEntry, data, pos)
  }

  /** sectionNodes.UnmarshalBinary. */
  method UnmarshalNodeSection(data: seq<byte>) returns (r: Result<seq<Node>>)
    ensures r == ParseNodeSection(data, 0)
  {
    ReadNodeEntryLoops();
    r := ReadRecords(ReadNodeEntry, data);
  }

  /** A final record cut short after at least one byte past its family is
      accepted, the missing bytes read as zeros. */
  lemma TruncatedLastNode(data: seq<byte>, pos: nat)
    requires pos + 1 < |data| && ValidFamily(data[pos]) && |data| < pos + NodeSize(data[pos])
    ensures ParseNodeSection(data, pos) == Ok([ParseNode(NodeRecordAt(data, pos)).value])
  {
    ReadNodeEntryMeaning(data, pos);
    ReadNodeEntryLoops();
    assert ParseRecords(ReadNodeEntry, data, |data|) == Ok([]);
    assert [ParseNode(NodeRecordAt(data, pos)).value] + [] == [ParseNode(NodeRecordAt(data, pos)).value];
  }

  /** A well-formed node's record, followed by records the loop reads,
      is read as that node and then those. */
  lemma ReadNodeEntryThen(n: Node, data: seq<byte>, off: nat, rest: seq<Node>)
    requires WellFormedNode(n)
    requires off + |MarshalNode(n)| <= |data| && data[off..off + |MarshalNode(n)|] == MarshalNode(n)
    requires ParseNodeSection(data, off + |MarshalNode(n)|) == Ok(rest)
    ensures ParseNodeSection(data, off) == Ok([n] + rest)
  {
    ReadNodeEntryLoops();
    ReadMarshalledNode(n, data, off);
    ReadNodeEntryMeaning(data, off);
    MarshalNodeFields(n);
    ParseRecordsCons(ReadNodeEntry, data, off, n, Reader(data, off + |MarshalNode(n)|), rest);
  }

  /** Well-formed nodes' records, back to back up to the end of the input,
      are read back as those nodes. */
  lemma {:induction false} ReadNodeSectionAt(nodes: seq<Node>, data: seq<byte>, off: nat, end: nat)
    requires forall i :: 0 <= i < |nodes| ==> WellFormedNode(nodes[i])
    requires off <= |data| && end == |data| && RecordsAt(data, off, nodes, end)
    ensures ParseNodeSection(data, off) == Ok(nodes)
    decreases |nodes|
  {
    if |nodes| > 0 {
      var n, rest := nodes[0], nodes[1..];
      forall i | 0 <= i < |rest| ensures WellFormedNode(rest[i]) {
        assert rest[i] == nodes[i + 1];
      }
      ReadNodeSectionAt(rest, data, off + |MarshalNode(n)|, end);
      ReadNodeEntryThen(n, data, off, rest);
      assert [n] + rest == nodes;
    }
  }

  /** Well-formed nodes survive sectionNodes marshalling and unmarshalling,
      in order. */
  lemma NodeSectionRoundTrip(nodes: seq<Node>)
    requires forall i :: 0 <= i < |nodes| ==> WellFormedNode(nodes[i])
    ensures ParseNodeSection(MarshalNodes(nodes), 0) == Ok(nodes)
  {
    var data := MarshalNodes(nodes);
    assert data[0..|data|] == data;
    MarshalledRecordsAt(nodes, data, 0, |data|);
    ReadNodeSectionAt(nodes, data, 0, |data|);
  }

  // ---------------------------------------------------------------------
  // The DHT section

  /** The DHT section's body as State.MarshalBinary writes it: the DHT
      cookie little-endian, then one node sub-section. */
  function EncodeDht(nodes: seq<Node>): seq<byte>
  {
    LE(CookieDHTGlobal, 4) + WriteSection(DhtSectionTypeNodes, CookieDHTInner, MarshalNodes(nodes))
  }

  /** The sub-sections of a DHT body from offset `pos` on, read while
      bytes are left.  A node sub-section replaces the nodes; any other
      type is skipped, End included, whose read stops before its cookie. */
  function ParseDhtSections(s: State, body: seq<byte>, pos: nat): Result<State>
    decreases |body| - pos
  {
    if pos >= |body| then Ok(s)
    else
      match ReadSection(Reader(body, pos), CookieDHTInner)
      case Err(e) => Err(e)
      case Ok((sec, next)) =>
        if sec.sectionType == DhtSectionTypeNodes then
          match ParseNodeSection(sec.body, 0)
          case Err(e) => Err(e)
          case Ok(nodes) => ParseDhtSections(s.(nodes := nodes), body, next.pos)
        else ParseDhtSections(s, body, next.pos)
  }

  /** What the DHT case of State.UnmarshalBinary does with a section
      body: the DHT cookie, read with binary.Read, then the sub-sections. */
  function ParseDht(s: State, body: seq<byte>): Result<State>
  {
    match NewReader(body).ReadFull(4)
    case Err(e) => Err(e)
    case Ok((cookie, r)) =>
      if LE32(cookie) != CookieDHTGlobal then Err(GlobalCookieError(CookieDHTGlobal, LE32(cookie)))
      else ParseDhtSections(s, body, r.pos)
  }

  /** The DHT case of State.UnmarshalBinary, with its inner loop. */
  method UnmarshalDht(s: State, body: seq<byte>) returns (r: Result<State>)
    ensures r == ParseDht(s, body)
  {
    var reader := NewReader(body);
    var cookie := reader.ReadFull(4);
    if cookie.Err? {
      return Err(cookie.error);
    }
    if LE32(cookie.value.0) != CookieDHTGlobal {
      return Err(GlobalCookieError(CookieDHTGlobal, LE32(cookie.value.0)));
    }
    reader := cookie.value.1;
    var st := s;
    while reader.Len() > 0
      invariant reader.data == body && reader.pos <= |body|
      invariant ParseDht(s, body) == ParseDhtSections(st, body, reader.pos)
      decreases |body| - reader.pos
    {
      assert reader == Reader(body, reader.pos);
      var next := ReadSection(reader, CookieDHTInner);
      if next.Err? {
        return Err(next.error);
      }
      var sec := next.value.0;
      if sec.sectionType == DhtSectionTypeNodes {
        var nodes := UnmarshalNodeSection(sec.body);
        if nodes.Err? {
          return Err(nodes.error);
        }
        st := st.(nodes := nodes.value);
      }
      reader := next.value.1;
    }
    return Ok(st);
  }

  /** The DHT body must open with the DHT cookie. */
  lemma DhtCookie(s: State, body: seq<byte>)
    ensures ParseDht(s, body).Ok? ==> |body| >= 4 && LE32(body[..4]) == CookieDHTGlobal
    ensures |body| >= 4 && LE32(body[..4]) != CookieDHTGlobal ==>
      ParseDht(s, body) == Err(GlobalCookieError(CookieDHTGlobal, LE32(body[..4])))
  {
  }

  /** The DHT body MarshalBinary writes opens with the right cookie. */
  lemma EncodedDhtCookie(s: State, nodes: seq<Node>)
    ensures ParseDht(s, EncodeDht(nodes)) == ParseDhtSections(s, EncodeDht(nodes), 4)
  {
    var body := EncodeDht(nodes);
    assert body[..4] == LE(CookieDHTGlobal, 4);
    LE32RoundTrip(CookieDHTGlobal);
  }

  /** The DHT body MarshalBinary writes is read back when it holds at
      least one node.  With none, the node sub-section is empty and last,
      so reading its body meets the end of the input. */
  lemma DhtRoundTrip(s: State, nodes: seq<Node>)
    requires forall i :: 0 <= i < |nodes| ==> WellFormedNode(nodes[i])
    requires |MarshalNodes(nodes)| < 0x1_0000_0000
    ensures ParseDht(s, EncodeDht(nodes)) == if |nodes| == 0 then Err(EOF) else Ok(s.(nodes := nodes))
  {
    var cookie := LE(CookieDHTGlobal, 4);
    var m := MarshalNodes(nodes);
    var body := EncodeDht(nodes);
    assert body == cookie + WriteSection(DhtSectionTypeNodes, CookieDHTInner, m) + [];
    EncodedDhtCookie(s, nodes);
    ReadWrittenSection(cookie, DhtSectionTypeNodes, CookieDHTInner, m, []);
    if |nodes| == 0 {
      assert m == [];
      assert ReadSection(Reader(body, 4), CookieDHTInner) == Err(EOF);
    } else {
      assert m == MarshalNodes(nodes[..|nodes| - 1]) + MarshalNode(nodes[|nodes| - 1]);
      NodeSectionRoundTrip(nodes);
      assert ReadSection(Reader(body, 4), CookieDHTInner) == Ok((Section(DhtSectionTypeNodes, m), Reader(body, |body|)));
      assert ParseDhtSections(s.(nodes := nodes), body, |body|) == Ok(s.(nodes := nodes));
    }
  }

  // ---------------------------------------------------------------------
  // The state file

  /** The section types State.UnmarshalBinary acts on. */
  predicate KnownSectionType(t: uint16)
  {
    t == SectionTypeNospamKeys || t == SectionTypeDHT || t == SectionTypeFriends || t == SectionTypeName
    || t == SectionTypeStatusMessage || t == SectionTypeStatus || t == SectionTypeTCPRelay
    || t == SectionTypePathNode || t == SectionTypeEnd
  }

  /** The nospam and keys case of State.UnmarshalBinary. */
  function ApplyNospamKeys(s: State, body: seq<byte>): Result<State>
  {
    match ParseNospamKeys(body)
    case Err(e) => Err(e)
    case Ok(k) => Ok(s.(nospam := k.nospam, publicKey := Some(k.publicKey), secretKey := Some(k.secretKey)))
  }

  /** The friends case. */
  function ApplyFriends(s: State, body: seq<byte>): Result<State>
  {
    match StateFriend.ParseFriends(body, 0)
    case Err(e) => Err(e)
    case Ok(friends) => Ok(s.(friends := friends))
  }

  /** The name case: the body as it is. */
  function ApplyName(s: State, body: seq<byte>): Result<State>
  {
    Ok(s.(name := body))
  }

  /** The status message case: the body as it is. */
  function ApplyStatusMessage(s: State, body: seq<byte>): Result<State>
  {
    Ok(s.(statusMessage := body))
  }

  /** The status case: the first byte of the body, which panics when the
      body is empty. */
  function ApplyStatus(s: State, body: seq<byte>): Result<State>
  {
    if |body| == 0 then Err(IndexOutOfRange) else Ok(s.(status := body[0]))
  }

  /** The TCP relay case. */
  function ApplyTCPRelays(s: State, body: seq<byte>): Result<State>
  {
    match ParseNodeSection(body, 0)
    case Err(e) => Err(e)
    case Ok(nodes) => Ok(s.(tcpRelays := nodes))
  }

  /** The path node case. */
  function ApplyPathNodes(s: State, body: seq<byte>): Result<State>
  {
    match ParseNodeSection(body, 0)
    case Err(e) => Err(e)
    case Ok(nodes) => Ok(s.(pathNodes := nodes))
  }

  /** Types the switch has no case for change nothing. */
  function Skip(s: State, body: seq<byte>): Result<State>
  {
    Ok(s)
  }

  /** The case of the switch of State.UnmarshalBinary for a section type
      other than End. */
  function SectionHandler(t: uint16): (State, seq<byte>) -> Result<State>
  {
    if t == SectionTypeNospamKeys then ApplyNospamKeys
    else if t == SectionTypeFriends then ApplyFriends
    else if t == SectionTypeName then ApplyName
    else if t == SectionTypeStatusMessage then ApplyStatusMessage
    else if t == SectionTypeStatus then ApplyStatus
    else if t == SectionTypeTCPRelay then ApplyTCPRelays
    else if t == SectionTypePathNode then ApplyPathNodes
    else if t == SectionTypeDHT then ParseDht
    else Skip
  }

  /** What one section other than End does to the state being filled. */
  function ApplySection(s: State, sec: Section): Result<State>
  {
    SectionHandler(sec.sectionType)(s, sec.body)
  }

  /** The section loop of State.UnmarshalBinary with `apply` as its
      switch: the sections from offset `pos` on, up to and including End. */
  function ParseSectionsWith(apply: (State, Section) -> Result<State>, s: State, data: seq<byte>, pos: nat): Result<State>
    decreases |data| - pos
  {
    match ReadSection(Reader(data, pos), CookieInner)
    case Err(e) => Err(e)
    case Ok((sec, next)) =>
      if sec.sectionType == SectionTypeEnd then Ok(s)
      else
        match apply(s, sec)
        case Err(e) => Err(e)
        case Ok(s') => ParseSectionsWith(apply, s', data, next.pos)
  }

  /** The section loop with the switch of State.UnmarshalBinary. */
  function ParseSections(s: State, data: seq<byte>, pos: nat): Result<State>
  {
    ParseSectionsWith(ApplySection, s, data, pos)
  }

  /** What State.UnmarshalBinary does to a state `s`: a Read of 4 bytes
      that must be zero, the global cookie with binary.Read, then the
      sections.  Fields no section carries keep their values from `s`. */
  function ParseState(s: State, data: seq<byte>): Result<State>
  {
    match NewReader(data).Read(4)
    case Err(e) => Err(e)
    case Ok((zeroes, r1)) =>
      if zeroes != [0, 0, 0, 0] then Err(StateMustStartWithZeroes)
      else
        match r1.ReadFull(4)
        case Err(e) => Err(e)
        case Ok((cookie, r2)) =>
          if LE32(cookie) != CookieGlobal then Err(GlobalCookieError(CookieGlobal, LE32(cookie)))
          else ParseSections(s, data, r2.pos)
  }

  /** State.UnmarshalBinary. */
  method UnmarshalState(s: State, data: seq<byte>) returns (r: Result<State>)
    ensures r == ParseState(s, data)
  {
    var reader := NewReader(data);
    var zeroes := reader.Read(4);
    if zeroes.Err? {
      return Err(zeroes.error);
    }
    if zeroes.value.0 != [0, 0, 0, 0] {
      return Err(StateMustStartWithZeroes);
    }
    reader := zeroes.value.1;
    var cookie := reader.ReadFull(4);
    if cookie.Err? {
      return Err(cookie.error);
    }
    if LE32(cookie.value.0) != CookieGlobal {
      return Err(GlobalCookieError(CookieGlobal, LE32(cookie.value.0)));
    }
    reader := cookie.value.1;
    var st := s;
    while true
      invariant reader.data == data && reader.pos <= |data|
      invariant ParseState(s, data) == ParseSections(st, data, reader.pos)
      decreases |data| - reader.pos
    {
      assert reader == Reader(data, reader.pos);
      var next := ReadSection(reader, CookieInner);
      if next.Err? {
        return Err(next.error);
      }
      var sec := next.value.0;
      if sec.sectionType == SectionTypeEnd {
        return Ok(st);
      }
      if sec.sectionType == SectionTypeNospamKeys {
        var keys := UnmarshalNospamKeys(sec.body);
        if keys.Err? {
          return Err(keys.error);
        }
        st := st.(nospam := keys.value.nospam, publicKey := Some(keys.value.publicKey), secretKey := Some(keys.value.secretKey));
      } else if sec.sectionType == SectionTypeFriends {
        var friends := StateFriend.UnmarshalFriends(sec.body);
        if friends.Err? {
          return Err(friends.error);
        }
        st := st.(friends := friends.value);
      } else if sec.sectionType == SectionTypeName {
        st := st.(name := sec.body);
      } else if sec.sectionType == SectionTypeStatusMessage {
        st := st.(statusMessage := sec.body);
      } else if sec.sectionType == SectionTypeStatus {
        if |sec.body| == 0 {
          return Err(IndexOutOfRange);
        }
        st := st.(status := sec.body[0]);
      } else if sec.sectionType == SectionTypeTCPRelay {
        var nodes := UnmarshalNodeSection(sec.body);
        if nodes.Err? {
          return Err(nodes.error);
        }
        st := st.(tcpRelays := nodes.value);
      } else if sec.sectionType == SectionTypePathNode {
        var nodes := UnmarshalNodeSection(sec.body);
        if nodes.Err? {
          return Err(nodes.error);
        }
        st := st.(pathNodes := nodes.value);
      } else if sec.sectionType == SectionTypeDHT {
        var dht := UnmarshalDht(st, sec.body);
        if dht.Err? {
          return Err(dht.error);
        }
        st := dht.value;
      }
      reader := next.value.1;
    }
  }

  /** The four zero bytes and the global cookie. */
  function StateHeader(): (h: seq<byte>)
    ensures |h| == 8
  {
    [0, 0, 0, 0] + LE(CookieGlobal, 4)
  }

  /** The End section MarshalBinary writes last. */
  function EndSection(): (e: seq<byte>)
    ensures |e| == SectionHeaderSize
  {
    WriteSection(SectionTypeEnd, CookieInner, [])
  }

  /** The bytes State.MarshalBinary writes: the header, its sections in
      order, then End. */
  function EncodeState(s: State): seq<byte>
    requires s.publicKey.Some? && s.secretKey.Some?
  {
    StateHeader() + EncodeSections(StateSections(s)) + EndSection()
  }

  /** State.MarshalBinary.  Slicing a nil key pointer panics. */
  method MarshalState(s: State) returns (r: Result<seq<byte>>)
    ensures s.publicKey.None? || s.secretKey.None? ==> r == Err(NilPointer)
    ensures s.publicKey.Some? && s.secretKey.Some? ==> r == Ok(EncodeState(s))
  {
    if s.publicKey.None? || s.secretKey.None? {
      return Err(NilPointer);
    }
    var buff := [0, 0, 0, 0];
    buff := buff + LE(CookieGlobal, 4);
    var keys := EncodeNospamKeys(NospamKeys(s.nospam, s.publicKey.value, s.secretKey.value));
    buff := buff + WriteSection(SectionTypeNospamKeys, CookieInner, keys);
    var friends := StateFriend.MarshalFriends(s.friends);
    buff := buff + WriteSection(SectionTypeFriends, CookieInner, friends);
    var pathNodes := MarshalNodeSection(s.pathNodes);
    buff := buff + WriteSection(SectionTypePathNode, CookieInner, pathNodes);
    var tcpRelays := MarshalNodeSection(s.tcpRelays);
    buff := buff + WriteSection(SectionTypeTCPRelay, CookieInner, tcpRelays);
    var dhtBuff := LE(CookieDHTGlobal, 4);
    var nodes := MarshalNodeSection(s.nodes);
    dhtBuff := dhtBuff + WriteSection(DhtSectionTypeNodes, CookieDHTInner, nodes);
    buff := buff + WriteSection(SectionTypeDHT, CookieInner, dhtBuff);
    buff := buff + WriteSection(SectionTypeName, CookieInner, s.name);
    buff := buff + WriteSection(SectionTypeStatusMessage, CookieInner, s.statusMessage);
    buff := buff + WriteSection(SectionTypeStatus, CookieInner, [s.status]);
    buff := buff + WriteSection(SectionTypeEnd, CookieInner, []);
    EncodeStateLayout(s);
    return Ok(buff);
  }

  // ---------------------------------------------------------------------
  // Properties of the state file

  /** A section header with type End at offset `p`. */
  predicate EndHeaderAt(data: seq<byte>, p: nat)
  {
    p + 6 <= |data| && TypeAt(data, p) == SectionTypeEnd
  }

  /** The section loop only succeeds by reaching an End header. */
  lemma {:induction false} ParseSectionsNeedsEnd(apply: (State, Section) -> Result<State>, s: State, data: seq<byte>, pos: nat)
    ensures ParseSectionsWith(apply, s, data, pos).Ok? ==> exists p :: pos <= p && EndHeaderAt(data, p)
    decreases |data| - pos
  {
    var res := ReadSection(Reader(data, pos), CookieInner);
    if res.Ok? {
      var (sec, next) := res.value;
      if sec.sectionType == SectionTypeEnd {
        assert EndHeaderAt(data, pos);
      } else if apply(s, sec).Ok? {
        ParseSectionsNeedsEnd(apply, apply(s, sec).value, data, next.pos);
      }
    }
  }

  /** The file must open with four zero bytes and the global cookie, and
      is accepted only if an End section is reached. */
  lemma StateHeaderChecks(s: State, data: seq<byte>)
    ensures ParseState(s, data).Ok? ==>
      && |data| >= 8 && data[..4] == [0, 0, 0, 0] && LE32(data[4..8]) == CookieGlobal
      && exists p :: 8 <= p && EndHeaderAt(data, p)
    ensures |data| >= 8 && data[..4] != [0, 0, 0, 0] ==> ParseState(s, data) == Err(StateMustStartWithZeroes)
    ensures |data| >= 8 && data[..4] == [0, 0, 0, 0] && LE32(data[4..8]) != CookieGlobal ==>
      ParseState(s, data) == Err(GlobalCookieError(CookieGlobal, LE32(data[4..8])))
  {
    if |data| >= 8 {
      assert NewReader(data).Read(4).value.0 == data[..4];
      ParseSectionsNeedsEnd(ApplySection, s, data, 8);
    } else if ParseState(s, data).Ok? {
      assert false;
    }
  }

  /** The section loop carried on at `pos` after a section was applied,
      unless applying it failed. */
  ghost function Continue(apply: (State, Section) -> Result<State>, r: Result<State>, data: seq<byte>, pos: nat): Result<State>
  {
    match r
    case Err(e) => Err(e)
    case Ok(s') => ParseSectionsWith(apply, s', data, pos)
  }

  /** Reading one section other than End applies it and goes on after
      it. */
  lemma SectionStep(apply: (State, Section) -> Result<State>, s: State, data: seq<byte>, pos: nat, sec: Section, next: Reader)
    requires ReadSection(Reader(data, pos), CookieInner) == Ok((sec, next)) && sec.sectionType != SectionTypeEnd
    ensures ParseSectionsWith(apply, s, data, pos) == Continue(apply, apply(s, sec), data, next.pos)
  {
  }

  /** Unknown section types are skipped, and a section that names a field
      replaces whatever an earlier section put there; the Status section
      takes the first byte of its body and fails on an empty one. */
  lemma ApplySectionCases(s: State, sec: Section)
    ensures !KnownSectionType(sec.sectionType) ==> ApplySection(s, sec) == Ok(s)
    ensures sec.sectionType == SectionTypeName ==> ApplySection(s, sec) == Ok(s.(name := sec.body))
    ensures sec.sectionType == SectionTypeStatusMessage ==> ApplySection(s, sec) == Ok(s.(statusMessage := sec.body))
    ensures sec.sectionType == SectionTypeStatus ==>
      ApplySection(s, sec) == if |sec.body| == 0 then Err(IndexOutOfRange) else Ok(s.(status := sec.body[0]))
    ensures ApplySection(s, sec).Ok? && sec.sectionType != SectionTypeDHT ==> ApplySection(s, sec).value.nodes == s.nodes
  {
  }

  /** The sections of a state, in the order MarshalBinary writes them
      between the header and End. */
  function StateSections(s: State): seq<Section>
    requires s.publicKey.Some? && s.secretKey.Some?
  {
    [ Section(SectionTypeNospamKeys, EncodeNospamKeys(NospamKeys(s.nospam, s.publicKey.value, s.secretKey.value))),
      Section(SectionTypeFriends, StateFriend.EncodeFriends(s.friends)),
      Section(SectionTypePathNode, MarshalNodes(s.pathNodes)),
      Section(SectionTypeTCPRelay, MarshalNodes(s.tcpRelays)),
      Section(SectionTypeDHT, EncodeDht(s.nodes)),
      Section(SectionTypeName, s.name),
      Section(SectionTypeStatusMessage, s.statusMessage),
      Section(SectionTypeStatus, [s.status]) ]
  }

  /** A section as writeSection writes it with the inner cookie. */
  function SectionBytes(sec: Section): seq<byte>
  {
    WriteSection(sec.sectionType, CookieInner, sec.body)
  }

  /** Sections written one after the other with the inner cookie. */
  function EncodeSections(secs: seq<Section>): seq<byte>
  {
    ConcatMap(secs, SectionBytes)
  }

  /** Four more encodings written after those of the elements before
      them, one at a time. */
  lemma ConcatMapFour<T>(h: seq<byte>, xs: seq<T>, k: nat, encode: T -> seq<byte>)
    requires k + 4 <= |xs|
    ensures h + ConcatMap(xs[..k + 4], encode)
         == h + ConcatMap(xs[..k], encode) + encode(xs[k]) + encode(xs[k + 1]) + encode(xs[k + 2]) + encode(xs[k + 3])
  {
    ConcatMapSnoc(xs, k, encode);
    ConcatMapSnoc(xs, k + 1, encode);
    ConcatMapSnoc(xs, k + 2, encode);
    ConcatMapSnoc(xs, k + 3, encode);
  }

  /** Eight encodings written after a header, one at a time. */
  lemma ConcatMapEight<T>(h: seq<byte>, xs: seq<T>, encode: T -> seq<byte>)
    requires |xs| == 8
    ensures h + ConcatMap(xs, encode)
         == h + encode(xs[0]) + encode(xs[1]) + encode(xs[2]) + encode(xs[3])
            + encode(xs[4]) + encode(xs[5]) + encode(xs[6]) + encode(xs[7])
  {
    assert xs[..0] == [];
    assert h + ConcatMap(xs[..0], encode) == h;
    ConcatMapFour(h, xs, 0, encode);
    ConcatMapFour(h, xs, 4, encode);
    assert xs[..8] == xs;
  }

  /** The bytes of a state laid out section by section, in the order
      MarshalBinary writes them. */
  lemma EncodeStateLayout(s: State)
    requires s.publicKey.Some? && s.secretKey.Some?
    ensures EncodeState(s)
         == [0, 0, 0, 0] + LE(CookieGlobal, 4)
            + WriteSection(SectionTypeNospamKeys, CookieInner, EncodeNospamKeys(NospamKeys(s.nospam, s.publicKey.value, s.secretKey.value)))
            + WriteSection(SectionTypeFriends, CookieInner, StateFriend.EncodeFriends(s.friends))
            + WriteSection(SectionTypePathNode, CookieInner, MarshalNodes(s.pathNodes))
            + WriteSection(SectionTypeTCPRelay, CookieInner, MarshalNodes(s.tcpRelays))
            + WriteSection(SectionTypeDHT, CookieInner, LE(CookieDHTGlobal, 4) + WriteSection(DhtSectionTypeNodes, CookieDHTInner, MarshalNodes(s.nodes)))
            + WriteSection(SectionTypeName, CookieInner, s.name)
            + WriteSection(SectionTypeStatusMessage, CookieInner, s.statusMessage)
            + WriteSection(SectionTypeStatus, CookieInner, [s.status])
            + WriteSection(SectionTypeEnd, CookieInner, [])
  {
    ConcatMapEight(StateHeader(), StateSections(s), SectionBytes);
  }

  /** The effect of sections applied one after the other by `apply`. */
  function ApplySectionsWith(apply: (State, Section) -> Result<State>, s: State, secs: seq<Section>): Result<State>
    decreases |secs|
  {
    if |secs| == 0 then Ok(s)
    else
      match apply(s, secs[0])
      case Err(e) => Err(e)
      case Ok(s') => ApplySectionsWith(apply, s', secs[1..])
  }

  /** A section written with WriteSection, with more input after it, is
      read back as written. */
  lemma ReadWrittenSectionAt(data: seq<byte>, p: nat, sec: Section)
    requires sec.sectionType != SectionTypeEnd && |sec.body| < 0x1_0000_0000
    requires p + SectionHeaderSize + |sec.body| < |data|
    requires data[p..p + SectionHeaderSize + |sec.body|] == WriteSection(sec.sectionType, CookieInner, sec.body)
    ensures ReadSection(Reader(data, p), CookieInner) == Ok((sec, Reader(data, p + SectionHeaderSize + |sec.body|)))
  {
    var b := p + SectionHeaderSize;
    WrittenSectionAt(data, p, sec, CookieInner);
    ReadSectionBody(data, p, CookieInner);
    assert data[b..b + |sec.body|] + Zeros(0) == sec.body;
  }

  /** Sections WriteSection can write and the loop reads past: no End,
      and bodies whose length fits the uint32 length field. */
  predicate Writable(secs: seq<Section>)
  {
    forall i :: 0 <= i < |secs| ==> secs[i].sectionType != SectionTypeEnd && |secs[i].body| < 0x1_0000_0000
  }

  /** readSection with the inner cookie, the read the section loop makes. */
  function ReadInner(r: Reader): Result<(Section, Reader)>
  {
    ReadSection(r, CookieInner)
  }

  /** Reading sections with `read` from `p` on yields `secs`, none of them
      End, one after the other, and stops at `q`. */
  predicate ReadsAs(read: Reader -> Result<(Section, Reader)>, data: seq<byte>, p: nat, secs: seq<Section>, q: nat)
    decreases |secs|
  {
    if |secs| == 0 then p == q
    else
      match read(Reader(data, p))
      case Err(_) => false
      case Ok((sec, next)) =>
        && sec == secs[0] && sec.sectionType != SectionTypeEnd
        && ReadsAs(read, data, next.pos, secs[1..], q)
  }

  /** A section read at `p`, then sections read from where it ends. */
  lemma ReadsAsCons(read: Reader -> Result<(Section, Reader)>, data: seq<byte>, p: nat, secs: seq<Section>, next: nat, q: nat)
    requires |secs| > 0 && secs[0].sectionType != SectionTypeEnd
    requires read(Reader(data, p)) == Ok((secs[0], Reader(data, next)))
    requires ReadsAs(read, data, next, secs[1..], q)
    ensures ReadsAs(read, data, p, secs, q)
  {
  }

  /** Sections read one after the other are applied in order. */
  lemma {:induction false} ParseReadSections(apply: (State, Section) -> Result<State>, s: State, data: seq<byte>, p: nat, secs: seq<Section>, q: nat)
    requires ReadsAs(ReadInner, data, p, secs, q)
    ensures ParseSectionsWith(apply, s, data, p) == Continue(apply, ApplySectionsWith(apply, s, secs), data, q)
    decreases |secs|
  {
    if |secs| > 0 {
      var next := ReadInner(Reader(data, p)).value.1;
      SectionStep(apply, s, data, p, secs[0], next);
      var a := apply(s, secs[0]);
      if a.Ok? {
        ParseReadSections(apply, a.value, data, next.pos, secs[1..], q);
      }
    }
  }

  /** `read` gives back, at position `p` of `data`, a section that
      `encode` wrote there with more input after it. */
  ghost predicate ReadsBackAt(read: Reader -> Result<(Section, Reader)>, encode: Section -> seq<byte>, data: seq<byte>, p: nat)
  {
    forall sec: Section {:trigger encode(sec)} ::
      && sec.sectionType != SectionTypeEnd && |sec.body| < 0x1_0000_0000
      && p + |encode(sec)| < |data| && data[p..p + |encode(sec)|] == encode(sec)
      ==> read(Reader(data, p)) == Ok((sec, Reader(data, p + |encode(sec)|)))
  }

  /** readSection gives back any section written with WriteSection. */
  lemma InnerReadsBack(data: seq<byte>)
    ensures forall p: nat :: ReadsBackAt(ReadInner, SectionBytes, data, p)
  {
    forall p: nat, sec: Section |
      && sec.sectionType != SectionTypeEnd && |sec.body| < 0x1_0000_0000
      && p + |SectionBytes(sec)| < |data| && data[p..p + |SectionBytes(sec)|] == SectionBytes(sec)
      ensures ReadInner(Reader(data, p)) == Ok((sec, Reader(data, p + |SectionBytes(sec)|)))
    {
      ReadWrittenSectionAt(data, p, sec);
    }
  }

  /** Where the encodings after the first lie. */
  lemma ConcatMapTail<T>(encode: T -> seq<byte>, xs: seq<T>, data: seq<byte>, p: nat, q: nat)
    requires |xs| > 0
    requires q == p + |ConcatMap(xs, encode)| && q <= |data| && data[p..q] == ConcatMap(xs, encode)
    ensures var next := p + |encode(xs[0])|;
      && q == next + |ConcatMap(xs[1..], encode)| && data[next..q] == ConcatMap(xs[1..], encode)
      && data[p..next] == encode(xs[0])
  {
    assert [xs[0]] + xs[1..] == xs;
    ConcatMapCons(xs[0], xs[1..], encode);
    SliceSplit(data, p, encode(xs[0]), ConcatMap(xs[1..], encode));
  }

  /** Sections written one after the other by `encode`, with more input
      after them, are read back as written by a read that gives back each
      section `encode` writes. */
  lemma {:induction false} ReadWrittenSections(read: Reader -> Result<(Section, Reader)>, encode: Section -> seq<byte>,
                                               secs: seq<Section>, data: seq<byte>, p: nat, q: nat)
    requires forall p': nat :: ReadsBackAt(read, encode, data, p')
    requires Writable(secs) && q == p + |ConcatMap(secs, encode)|
    requires q < |data| && data[p..q] == ConcatMap(secs, encode)
    ensures ReadsAs(read, data, p, secs, q)
    decreases |secs|
  {
    if |secs| > 0 {
      var next := p + |encode(secs[0])|;
      ConcatMapTail(encode, secs, data, p, q);
      assert ReadsBackAt(read, encode, data, p);
      ReadWrittenSections(read, encode, secs[1..], data, next, q);
      ReadsAsCons(read, data, p, secs, next, q);
    }
  }

  // ---------------------------------------------------------------------
  // The round trip of a whole state

  /** A state MarshalBinary can write and UnmarshalBinary reads back: both
      keys set, friends whose strings fit their fields, well-formed nodes,
      and every section body short enough for its uint32 length field. */
  predicate Marshallable(s: State)
  {
    && s.publicKey.Some? && s.secretKey.Some?
    && (forall i :: 0 <= i < |s.friends| ==> StateFriend.Fits(s.friends[i]))
    && (forall i :: 0 <= i < |s.pathNodes| ==> WellFormedNode(s.pathNodes[i]))
    && (forall i :: 0 <= i < |s.tcpRelays| ==> WellFormedNode(s.tcpRelays[i]))
    && (forall i :: 0 <= i < |s.nodes| ==> WellFormedNode(s.nodes[i]))
    && |StateFriend.EncodeFriends(s.friends)| < 0x1_0000_0000
    && |MarshalNodes(s.pathNodes)| < 0x1_0000_0000
    && |MarshalNodes(s.tcpRelays)| < 0x1_0000_0000
    && |EncodeDht(s.nodes)| < 0x1_0000_0000
    && |s.name| < 0x1_0000_0000 && |s.statusMessage| < 0x1_0000_0000
  }

  /** Applying the k-th section of a list, then the ones after it. */
  lemma ApplyNext(apply: (State, Section) -> Result<State>, s: State, secs: seq<Section>, k: nat)
    requires k < |secs|
    ensures ApplySectionsWith(apply, s, secs[k..])
         == match apply(s, secs[k])
            case Err(e) => Err(e)
            case Ok(s') => ApplySectionsWith(apply, s', secs[k + 1..])
  {
    assert secs[k..][1..] == secs[k + 1..];
  }

  /** The nospam and keys section sets the nospam and both keys. */
  lemma KeysSectionApplies(st: State, s: State)
    requires s.publicKey.Some? && s.secretKey.Some?
    ensures ApplySection(st, Section(SectionTypeNospamKeys, EncodeNospamKeys(NospamKeys(s.nospam, s.publicKey.value, s.secretKey.value))))
         == Ok(st.(nospam := s.nospam, publicKey := s.publicKey, secretKey := s.secretKey))
  {
    NospamKeysRoundTrip(NospamKeys(s.nospam, s.publicKey.value, s.secretKey.value));
  }

  /** The friends section sets the friends. */
  lemma FriendsSectionApplies(st: State, friends: seq<StateFriend.Friend>)
    requires forall i :: 0 <= i < |friends| ==> StateFriend.Fits(friends[i])
    ensures ApplySection(st, Section(SectionTypeFriends, StateFriend.EncodeFriends(friends))) == Ok(st.(friends := friends))
  {
    StateFriend.FriendsRoundTrip(friends, []);
    assert [] + StateFriend.EncodeFriends(friends) == StateFriend.EncodeFriends(friends);
  }

  /** The path node and TCP relay sections set their node lists. */
  lemma NodeSectionsApply(st: State, body: seq<byte>, nodes: seq<Node>)
    requires ParseNodeSection(body, 0) == Ok(nodes)
    ensures ApplySection(st, Section(SectionTypePathNode, body)) == Ok(st.(pathNodes := nodes))
    ensures ApplySection(st, Section(SectionTypeTCPRelay, body)) == Ok(st.(tcpRelays := nodes))
  {
  }

  /** The DHT section sets the nodes, and fails when there are none. */
  lemma DhtSectionApplies(st: State, nodes: seq<Node>)
    requires forall i :: 0 <= i < |nodes| ==> WellFormedNode(nodes[i])
    requires |MarshalNodes(nodes)| < 0x1_0000_0000
    ensures ApplySection(st, Section(SectionTypeDHT, EncodeDht(nodes)))
         == if |nodes| == 0 then Err(EOF) else Ok(st.(nodes := nodes))
  {
    DhtRoundTrip(st, nodes);
  }

  /** The state after the keys, friends, path node and TCP relay sections
      of `s` are applied to `init`. */
  function FirstFour(init: State, s: State): State
  {
    init.(nospam := s.nospam, publicKey := s.publicKey, secretKey := s.secretKey,
      friends := s.friends, pathNodes := s.pathNodes, tcpRelays := s.tcpRelays)
  }

  /** Four sections from the k-th on, each applied with success. */
  lemma ApplyFourAt(apply: (State, Section) -> Result<State>, secs: seq<Section>, k: nat,
                    s0: State, s1: State, s2: State, s3: State, s4: State)
    requires k + 4 <= |secs|
    requires apply(s0, secs[k]) == Ok(s1) && apply(s1, secs[k + 1]) == Ok(s2)
    requires apply(s2, secs[k + 2]) == Ok(s3) && apply(s3, secs[k + 3]) == Ok(s4)
    ensures ApplySectionsWith(apply, s0, secs[k..]) == ApplySectionsWith(apply, s4, secs[k + 4..])
  {
    ApplyNext(apply, s0, secs, k);
    ApplyNext(apply, s1, secs, k + 1);
    ApplyNext(apply, s2, secs, k + 2);
    ApplyNext(apply, s3, secs, k + 3);
  }

  /** The keys, friends, path node and TCP relay sections are read back. */
  lemma ApplyFirstFour(init: State, s: State)
    requires Marshallable(s)
    ensures ApplySectionsWith(ApplySection, init, StateSections(s))
         == ApplySectionsWith(ApplySection, FirstFour(init, s), StateSections(s)[4..])
  {
    var secs := StateSections(s);
    var st1 := init.(nospam := s.nospam, publicKey := s.publicKey, secretKey := s.secretKey);
    var st2 := st1.(friends := s.friends);
    var st3 := st2.(pathNodes := s.pathNodes);
    KeysSectionApplies(init, s);
    FriendsSectionApplies(st1, s.friends);
    NodeSectionRoundTrip(s.pathNodes);
    NodeSectionsApply(st2, MarshalNodes(s.pathNodes), s.pathNodes);
    NodeSectionRoundTrip(s.tcpRelays);
    NodeSectionsApply(st3, MarshalNodes(s.tcpRelays), s.tcpRelays);
    assert secs[0..] == secs;
    ApplyNext(ApplySection, init, secs, 0);
    ApplyNext(ApplySection, st1, secs, 1);
    ApplyNext(ApplySection, st2, secs, 2);
    ApplyNext(ApplySection, st3, secs, 3);
  }

  /** The DHT, name, status message and status sections are read back
      after the first four, unless there are no DHT nodes. */
  lemma ApplyLastFour(init: State, s: State)
    requires s.publicKey.Some? && s.secretKey.Some?
    requires forall i :: 0 <= i < |s.nodes| ==> WellFormedNode(s.nodes[i])
    requires |MarshalNodes(s.nodes)| < 0x1_0000_0000
    ensures ApplySectionsWith(ApplySection, FirstFour(init, s), StateSections(s)[4..])
         == if |s.nodes| == 0 then Err(EOF) else Ok(s)
  {
    var secs := StateSections(s);
    var st4 := FirstFour(init, s);
    DhtSectionApplies(st4, s.nodes);
    ApplyNext(ApplySection, st4, secs, 4);
    if |s.nodes| > 0 {
      var st5 := st4.(nodes := s.nodes);
      var st6 := st5.(name := s.name);
      var st7 := st6.(statusMessage := s.statusMessage);
      ApplySectionCases(st5, secs[5]);
      ApplySectionCases(st6, secs[6]);
      ApplySectionCases(st7, secs[7]);
      assert st7.(status := s.status) == s;
      ApplyFourAt(ApplySection, secs, 4, st4, st5, st6, st7, s);
      assert secs[8..] == [];
    }
  }

  /** The sections of a state, applied to any state, give that state back,
      unless it has no DHT nodes. */
  lemma ApplyStateSections(init: State, s: State)
    requires Marshallable(s)
    ensures ApplySectionsWith(ApplySection, init, StateSections(s)) == if |s.nodes| == 0 then Err(EOF) else Ok(s)
  {
    ApplyFirstFour(init, s);
    ApplyLastFour(init, s);
  }

  /** An End section written at `q` ends the section loop there. */
  lemma WrittenEndEndsLoop(apply: (State, Section) -> Result<State>, st: State, data: seq<byte>, q: nat)
    requires q + SectionHeaderSize <= |data| && data[q..q + SectionHeaderSize] == EndSection()
    ensures ParseSectionsWith(apply, st, data, q) == Ok(st)
  {
    WriteSectionFields(SectionTypeEnd, CookieInner, []);
    SliceWithin(data, q, EndSection(), 4, 6);
    ReadSectionEnd(data, q, CookieInner);
  }

  /** With four zero bytes and the global cookie in front, the file is
      read as its sections from offset 8 on. */
  lemma ParseStateHeader(s: State, data: seq<byte>)
    requires |data| > 8 && data[..8] == StateHeader()
    ensures ParseState(s, data) == ParseSections(s, data, 8)
  {
    assert data[..4] == StateHeader()[..4] == [0, 0, 0, 0];
    assert data[4..8] == StateHeader()[4..8] == LE(CookieGlobal, 4);
    LE32RoundTrip(CookieGlobal);
  }

  /** Where the parts of an encoded state lie. */
  lemma EncodedStateParts(s: State)
    requires s.publicKey.Some? && s.secretKey.Some?
    ensures var data, q := EncodeState(s), 8 + |EncodeSections(StateSections(s))|;
      && |data| == q + SectionHeaderSize
      && data[..8] == StateHeader()
      && data[8..q] == EncodeSections(StateSections(s))
      && data[q..q + SectionHeaderSize] == EndSection()
  {
    var h, b, e := StateHeader(), EncodeSections(StateSections(s)), EndSection();
    var data := h + b + e;
    assert data[..8] == h;
    assert data[8..8 + |b|] == b;
    assert data[8 + |b|..8 + |b| + SectionHeaderSize] == e;
  }

  /** The eight sections MarshalBinary writes, whatever their bodies, are
      none of them End; they fit when their bodies do. */
  lemma SectionsWritable(keys: seq<byte>, friends: seq<byte>, pathNodes: seq<byte>, tcpRelays: seq<byte>,
                         dht: seq<byte>, name: seq<byte>, statusMessage: seq<byte>, status: byte)
    requires |keys| < 0x1_0000_0000 && |friends| < 0x1_0000_0000 && |pathNodes| < 0x1_0000_0000
    requires |tcpRelays| < 0x1_0000_0000 && |dht| < 0x1_0000_0000
    requires |name| < 0x1_0000_0000 && |statusMessage| < 0x1_0000_0000
    ensures Writable([ Section(SectionTypeNospamKeys, keys), Section(SectionTypeFriends, friends),
                       Section(SectionTypePathNode, pathNodes), Section(SectionTypeTCPRelay, tcpRelays),
                       Section(SectionTypeDHT, dht), Section(SectionTypeName, name),
                       Section(SectionTypeStatusMessage, statusMessage), Section(SectionTypeStatus, [status]) ])
  {
  }

  /** The sections of a marshallable state can be written and read past. */
  lemma StateSectionsWritable(s: State)
    requires Marshallable(s)
    ensures Writable(StateSections(s))
  {
    SectionsWritable(EncodeNospamKeys(NospamKeys(s.nospam, s.publicKey.value, s.secretKey.value)),
      StateFriend.EncodeFriends(s.friends), MarshalNodes(s.pathNodes), MarshalNodes(s.tcpRelays),
      EncodeDht(s.nodes), s.name, s.statusMessage, s.status);
  }

  /** State.UnmarshalBinary reads back what State.MarshalBinary writes,
      whatever state it reads into, unless there are no DHT nodes: the node
      sub-section is then empty and last in the DHT body, and reading it
      meets the end of that body. */
  lemma StateRoundTrip(init: State, s: State)
    requires Marshallable(s)
    ensures ParseState(init, EncodeState(s)) == if |s.nodes| == 0 then Err(EOF) else Ok(s)
  {
    var secs := StateSections(s);
    var data, q := EncodeState(s), 8 + |EncodeSections(StateSections(s))|;
    EncodedStateParts(s);
    ParseStateHeader(init, data);
    StateSectionsWritable(s);
    InnerReadsBack(data);
    ReadWrittenSections(ReadInner, SectionBytes, secs, data, 8, q);
    ParseReadSections(ApplySection, init, data, 8, secs, q);
    ApplyStateSections(init, s);
    if |s.nodes| > 0 {
      WrittenEndEndsLoop(ApplySection, s, data, q);
    }
  }
}
