/** bootstrap/packets.go: the bootstrap node info packets.  A RawPacket is
    a type byte followed by the payload; type 0xF0 carries either an info
    request (77 zero bytes) or an info response (a big-endian version and a
    message of the day of at most 256 bytes).  The MOTD, a Go string, is
    modelled as its bytes. */
module BootstrapPackets {
  import opened Bytes
  import opened Errors
  import opened GoReader

  const PacketTypeBootstrapInfo: byte := 0xF0
  const RequestPacketLength: nat := 78
  const MaxMOTDLength: nat := 256

  datatype RawPacket = RawPacket(packetType: byte, payload: seq<byte>)

  /** The Packet interface over its two implementations. */
  datatype BootstrapPacket =
    | InfoRequest
    | InfoResponse(version: uint32, motd: seq<byte>)

  /** ID: both kinds share the one packet type. */
  function ID(p: BootstrapPacket): (t: byte)
    ensures t == PacketTypeBootstrapInfo
  {
    match p
    case InfoRequest => PacketTypeBootstrapInfo
    case InfoResponse(_, _) => PacketTypeBootstrapInfo
  }

  // ---------------------------------------------------------------------
  // RawPacket

  /** RawPacket.MarshalBinary. */
  function MarshalRaw(p: RawPacket): (m: seq<byte>)
    ensures |m| == 1 + |p.payload| && m[0] == p.packetType && m[1..] == p.payload
  {
    [p.packetType] + p.payload
  }

  /** What RawPacket.UnmarshalBinary accepts: a type byte and at least one
      payload byte, because the payload is read with a Read that meets the
      end of the input when it is empty. */
  function ParseRaw(data: seq<byte>): Result<RawPacket>
  {
    if |data| < 2 then Err(EOF) else Ok(RawPacket(data[0], data[1..]))
  }

  /** RawPacket.UnmarshalBinary. */
  method UnmarshalRaw(data: seq<byte>) returns (r: Result<RawPacket>)
    ensures r == ParseRaw(data)
    ensures r.Ok? <==> |data| >= 2
  {
    var reader := NewReader(data);
    var t := reader.ReadFull(1);
    if t.Err? {
      return Err(t.error);
    }
    reader := t.value.1;
    var payload := reader.Read(reader.Len());
    if payload.Err? {
      return Err(payload.error);
    }
    assert payload.value.0 == data[1..];
    return Ok(RawPacket(t.value.0[0], payload.value.0));
  }

  lemma RawRoundTrip(p: RawPacket)
    ensures ParseRaw(MarshalRaw(p)) == if |p.payload| > 0 then Ok(p) else Err(EOF)
  {
    if |p.payload| > 0 {
      assert MarshalRaw(p)[1..] == p.payload;
    }
  }

  lemma ParseRawThenMarshal(data: seq<byte>)
    requires ParseRaw(data).Ok?
    ensures MarshalRaw(ParseRaw(data).value) == data
  {
  }

  // ---------------------------------------------------------------------
  // bytes.Trim(s, "\x00")

  function TrimLeft(s: seq<byte>): (t: seq<byte>)
    ensures |t| <= |s| && t == s[|s| - |t|..]
    ensures AllZero(s[..|s| - |t|])
    ensures |t| > 0 ==> t[0] != 0
  {
    if |s| > 0 && s[0] == 0 then
      var t := TrimLeft(s[1..]);
      assert s[1..][..|s| - 1 - |t|] == s[1..|s| - |t|];
      t
    else s
  }

  function TrimRight(s: seq<byte>): (t: seq<byte>)
    ensures |t| <= |s| && t == s[..|t|]
    ensures AllZero(s[|t|..])
    ensures |t| > 0 ==> t[|t| - 1] != 0
  {
    if |s| > 0 && s[|s| - 1] == 0 then
      var t := TrimRight(s[..|s| - 1]);
      assert s[|t|..] == s[..|s| - 1][|t|..] + [0];
      t
    else s
  }

  /** The NULs at both ends removed. */
  function Trim(s: seq<byte>): seq<byte>
  {
    TrimRight(TrimLeft(s))
  }

  /** Trim keeps a contiguous part of `s` whose ends are not NUL, and only
      NULs were cut away. */
  lemma TrimProperties(s: seq<byte>)
    ensures var t := Trim(s);
      var i := |s| - |TrimLeft(s)|;
      && (|t| > 0 ==> t[0] != 0 && t[|t| - 1] != 0)
      && i + |t| <= |s| && s[i..i + |t|] == t
      && AllZero(s[..i]) && AllZero(s[i + |t|..])
  {
    TrimOf(s, TrimLeft(s), Trim(s));
  }

  /** TrimProperties for a left trim `l` of `s` and a right trim `t` of
      `l`, given by what TrimLeft and TrimRight promise. */
  lemma TrimOf(s: seq<byte>, l: seq<byte>, t: seq<byte>)
    requires |l| <= |s| && l == s[|s| - |l|..] && AllZero(s[..|s| - |l|]) && (|l| > 0 ==> l[0] != 0)
    requires |t| <= |l| && t == l[..|t|] && AllZero(l[|t|..]) && (|t| > 0 ==> t[|t| - 1] != 0)
    ensures var i := |s| - |l|;
      && (|t| > 0 ==> t[0] != 0 && t[|t| - 1] != 0)
      && i + |t| <= |s| && s[i..i + |t|] == t
      && AllZero(s[..i]) && AllZero(s[i + |t|..])
  {
    var i := |s| - |l|;
    if |t| > 0 {
      assert t[0] == l[0];
    }
    SliceOfSuffix(s, i, |t|);
  }

  lemma SliceOfSuffix(s: seq<byte>, i: nat, n: nat)
    requires i + n <= |s|
    ensures s[i..][..n] == s[i..i + n] && s[i..][n..] == s[i + n..]
  {
  }

  /** A byte string without NULs at its ends is its own trim. */
  lemma TrimKeeps(s: seq<byte>)
    requires |s| > 0 ==> s[0] != 0 && s[|s| - 1] != 0
    ensures Trim(s) == s
  {
  }

  lemma TrimIdempotent(s: seq<byte>)
    ensures Trim(Trim(s)) == Trim(s)
  {
    TrimProperties(s);
    TrimKeeps(Trim(s));
  }

  // ---------------------------------------------------------------------
  // The info packets

  /** InfoResponsePacket.MarshalBinary: the version, then the MOTD, which
      may hold at most 256 bytes. */
  function MarshalInfoResponse(version: uint32, motd: seq<byte>): (r: Result<seq<byte>>)
    ensures r.Ok? <==> |motd| <= MaxMOTDLength
    ensures r.Err? ==> r.error == MOTDTooLong
    ensures r.Ok? ==> |r.value| == 4 + |motd| && BE32(r.value[..4]) == version && r.value[4..] == motd
  {
    BE32RoundTrip(version);
    if |motd| > MaxMOTDLength then Err(MOTDTooLong) else Ok(BE(version, 4) + motd)
  }

  /** What InfoResponsePacket.UnmarshalBinary accepts: a 4-byte version and
      from 1 to 256 more bytes, whose NULs at both ends are trimmed off. */
  function ParseInfoResponse(data: seq<byte>): Result<BootstrapPacket>
  {
    if |data| == 0 then Err(EOF)
    else if |data| < 4 then Err(UnexpectedEOF)
    else if |data| - 4 > MaxMOTDLength then Err(MOTDTooLong)
    else if |data| == 4 then Err(EOF)
    else Ok(InfoResponse(BE32(data[..4]), Trim(data[4..])))
  }

  /** InfoResponsePacket.UnmarshalBinary. */
  method UnmarshalInfoResponse(data: seq<byte>) returns (r: Result<BootstrapPacket>)
    ensures r == ParseInfoResponse(data)
    ensures r.Ok? <==> 5 <= |data| <= 4 + MaxMOTDLength
  {
    var reader := NewReader(data);
    var version := reader.ReadFull(4);
    if version.Err? {
      return Err(version.error);
    }
    reader := version.value.1;
    if reader.Len() > MaxMOTDLength {
      return Err(MOTDTooLong);
    }
    var motd := reader.Read(reader.Len());
    if motd.Err? {
      return Err(motd.error);
    }
    assert motd.value.0 == data[4..];
    return Ok(InfoResponse(BE32(version.value.0), Trim(motd.value.0)));
  }

  /** InfoRequestPacket.MarshalBinary: 77 zero bytes. */
  function MarshalInfoRequest(): (m: seq<byte>)
    ensures |m| == RequestPacketLength - 1 && AllZero(m)
  {
    Zeros(RequestPacketLength - 1)
  }

  /** InfoRequestPacket.UnmarshalBinary: exactly 77 bytes of any content. */
  function ParseInfoRequest(data: seq<byte>): (r: Result<BootstrapPacket>)
    ensures r.Ok? <==> |data| == RequestPacketLength - 1
    ensures r.Err? ==> r.error == InvalidPacketLength(|data|, RequestPacketLength - 1)
  {
    if |data| != RequestPacketLength - 1
    then Err(InvalidPacketLength(|data|, RequestPacketLength - 1))
    else Ok(InfoRequest)
  }

  /** sliceIsZero. */
  method SliceIsZero(data: seq<byte>) returns (z: bool)
    ensures z <==> AllZero(data)
  {
    for i := 0 to |data|
      invariant AllZero(data[..i])
    {
      if data[i] != 0 {
        return false;
      }
      assert data[..i + 1] == data[..i] + [data[i]];
    }
    assert data[..|data|] == data;
    return true;
  }

  // ---------------------------------------------------------------------
  // Dispatch

  /** UnmarshalPacket: under type 0xF0, 77 zero bytes are a request and
      anything else is read as a response; any other type is refused. */
  function UnmarshalPacket(p: RawPacket): (r: Result<BootstrapPacket>)
    ensures p.packetType != PacketTypeBootstrapInfo ==> r == Err(UnknownBootstrapPacketType(p.packetType))
    ensures r == Ok(InfoRequest) <==>
      p.packetType == PacketTypeBootstrapInfo && |p.payload| == RequestPacketLength - 1 && AllZero(p.payload)
  {
    if p.packetType != PacketTypeBootstrapInfo then Err(UnknownBootstrapPacketType(p.packetType))
    else if |p.payload| == RequestPacketLength - 1 && AllZero(p.payload) then ParseInfoRequest(p.payload)
    else ParseInfoResponse(p.payload)
  }

  /** The package-level UnmarshalBinary: a RawPacket, then UnmarshalPacket. */
  function UnmarshalBinary(data: seq<byte>): (r: Result<BootstrapPacket>)
    ensures |data| < 2 ==> r == Err(EOF)
    ensures |data| >= 2 && data[0] != PacketTypeBootstrapInfo ==> r == Err(UnknownBootstrapPacketType(data[0]))
    ensures r == Ok(InfoRequest) <==>
      |data| == RequestPacketLength && data[0] == PacketTypeBootstrapInfo && AllZero(data[1..])
  {
    match ParseRaw(data)
    case Err(e) => Err(e)
    case Ok(raw) => UnmarshalPacket(raw)
  }

  /** MarshalPacket: the packet's ID and its marshalling, or the marshal
      error. */
  function MarshalPacket(p: BootstrapPacket): (r: Result<RawPacket>)
    ensures r.Ok? ==> r.value.packetType == ID(p)
    ensures p.InfoResponse? ==> (r.Ok? <==> |p.motd| <= MaxMOTDLength)
  {
    match p
    case InfoRequest => Ok(RawPacket(ID(p), MarshalInfoRequest()))
    case InfoResponse(version, motd) =>
      match MarshalInfoResponse(version, motd)
      case Err(e) => Err(e)
      case Ok(payload) => Ok(RawPacket(ID(p), payload))
  }

  /** A response MOTD the receiver reads back as it was sent. */
  predicate SendableMOTD(motd: seq<byte>)
  {
    1 <= |motd| <= MaxMOTDLength && motd[0] != 0 && motd[|motd| - 1] != 0
  }

  /** A request, and a response whose MOTD is sendable, survive
      MarshalPacket, RawPacket marshalling and UnmarshalBinary.  A sendable
      MOTD starts with a non-zero byte, so its payload is never mistaken
      for a request. */
  lemma PacketRoundTrip(p: BootstrapPacket)
    requires p.InfoResponse? ==> SendableMOTD(p.motd)
    ensures MarshalPacket(p).Ok?
    ensures UnmarshalBinary(MarshalRaw(MarshalPacket(p).value)) == Ok(p)
  {
    var raw := MarshalPacket(p).value;
    RawRoundTrip(raw);
    if p.InfoResponse? {
      ResponsePayloadRoundTrip(p.version, p.motd);
    }
  }

  lemma ResponsePayloadRoundTrip(version: uint32, motd: seq<byte>)
    requires SendableMOTD(motd)
    ensures MarshalInfoResponse(version, motd).Ok?
    ensures UnmarshalPacket(RawPacket(PacketTypeBootstrapInfo, MarshalInfoResponse(version, motd).value))
         == Ok(InfoResponse(version, motd))
  {
    var payload := MarshalInfoResponse(version, motd).value;
    assert payload[4] == motd[0];
    assert !AllZero(payload);
    assert payload[..4] == BE(version, 4);
    assert payload[4..] == motd;
    BE32RoundTrip(version);
    TrimKeeps(motd);
  }

  /** A response with an empty MOTD marshals but cannot be read back: its
      payload ends right after the version. */
  lemma EmptyMOTDIsUnreadable(version: uint32)
    ensures MarshalPacket(InfoResponse(version, [])).Ok?
    ensures UnmarshalBinary(MarshalRaw(MarshalPacket(InfoResponse(version, [])).value)) == Err(EOF)
  {
    var raw := MarshalPacket(InfoResponse(version, [])).value;
    RawRoundTrip(raw);
  }
}
