/** The DHT wire codec of dht/packets.go: the encrypted envelope, the Node
    record and the four payloads GetNodes, SendNodes, PingRequest and
    PingResponse.  Every multi-byte field is big-endian.

    Each UnmarshalBinary is a method that walks a `bytes.Reader` cursor the
    way the Go code does; its contract ties the result to a Parse function
    that says, on the raw bytes, which inputs are accepted and what they
    decode to.  The MarshalBinary methods without a loop are functions that
    concatenate the fields in the order the Go code writes them (the
    `bytes.Buffer` writes cannot fail, so neither can these). */
module DhtPackets {
  import opened Bytes
  import opened Errors
  import opened GoReader

  // PacketType
  const PacketTypePingRequest: byte := 0
  const PacketTypePingResponse: byte := 1
  const PacketTypeGetNodes: byte := 2
  const PacketTypeSendNodes: byte := 4

  // NodeType
  const NodeTypeUDPIP4: byte := 2
  const NodeTypeUDPIP6: byte := 10
  const NodeTypeTCPIP4: byte := 130
  const NodeTypeTCPIP6: byte := 138

  /** The largest number of nodes a SendNodes packet may carry. */
  const MaxNodes: nat := 4

  /** Size of the envelope header: type, sender public key, nonce. */
  const EnvelopeHeaderSize: nat := 1 + PublicKeySize + NonceSize

  /** Node: `IP` is a Go `net.IP` of any length and `Port` a Go `int`;
      neither is checked before marshalling. */
  datatype Node = Node(nodeType: byte, publicKey: Key, ip: seq<byte>, port: int)

  datatype GetNodesPacket = GetNodesPacket(publicKey: Key, pingID: uint64)

  datatype SendNodesPacket = SendNodesPacket(nodes: seq<Node>, pingID: uint64)

  datatype PingRequestPacket = PingRequestPacket(pingID: uint64)

  datatype PingResponsePacket = PingResponsePacket(pingID: uint64)

  /** EncryptedPacket: the payload is the rest of the datagram, with no
      length prefix. */
  datatype EncryptedPacket =
    EncryptedPacket(packetType: byte, senderPublicKey: Key, nonce: Nonce, payload: seq<byte>)

  /** The Packet interface, as a tagged union of its four implementations. */
  datatype Packet =
    | GetNodes(getNodes: GetNodesPacket)
    | SendNodes(sendNodes: SendNodesPacket)
    | PingRequest(pingRequest: PingRequestPacket)
    | PingResponse(pingResponse: PingResponsePacket)

  /** The ID method of each packet kind. */
  function ID(p: Packet): (t: byte)
    ensures t in {PacketTypePingRequest, PacketTypePingResponse, PacketTypeGetNodes, PacketTypeSendNodes}
  {
    match p
    case GetNodes(_) => PacketTypeGetNodes
    case SendNodes(_) => PacketTypeSendNodes
    case PingRequest(_) => PacketTypePingRequest
    case PingResponse(_) => PacketTypePingResponse
  }

  lemma IDsAreDistinct(p: Packet, q: Packet)
    ensures ID(p) == ID(q) <==> p.GetNodes? == q.GetNodes? && p.SendNodes? == q.SendNodes? && p.PingRequest? == q.PingRequest?
  {
  }

  // ---------------------------------------------------------------------
  // Address families

  /** The families a Node record may carry: 2 and 130 (IPv4), 10 and 138 (IPv6). */
  predicate ValidFamily(t: int)
  {
    t == NodeTypeUDPIP4 || t == NodeTypeTCPIP4 || t == NodeTypeUDPIP6 || t == NodeTypeTCPIP6
  }

  /** net.IPv4len or net.IPv6len, by family. */
  function IPSize(t: byte): nat
    requires ValidFamily(t)
  {
    if t == NodeTypeUDPIP4 || t == NodeTypeTCPIP4 then 4 else 16
  }

  /** The bytes of one Node record: family, IP, port, public key. */
  function NodeSize(t: byte): nat
    requires ValidFamily(t)
  {
    1 + IPSize(t) + 2 + PublicKeySize
  }

  /** NodeType.Net; `None` stands for the panic on an unknown type. */
  function Net(t: byte): (r: Option<string>)
    ensures r.Some? <==> ValidFamily(t)
    ensures r.Some? ==> |r.value| == 4 && r.value[3] == (if IPSize(t) == 4 then '4' else '6')
    ensures r.Some? ==> r.value[..3] == (if t == NodeTypeUDPIP4 || t == NodeTypeUDPIP6 then "udp" else "tcp")
  {
    if t == NodeTypeUDPIP4 then Some("udp4")
    else if t == NodeTypeUDPIP6 then Some("udp6")
    else if t == NodeTypeTCPIP4 then Some("tcp4")
    else if t == NodeTypeTCPIP6 then Some("tcp6")
    else None
  }

  /** A node that marshals to a record its unmarshalling reads back. */
  predicate WellFormedNode(n: Node)
  {
    ValidFamily(n.nodeType) && |n.ip| == IPSize(n.nodeType) && 0 <= n.port < 0x1_0000
  }

  // ---------------------------------------------------------------------
  // Node

  /** Node.MarshalBinary: type, IP as stored, uint16(Port) big-endian, key. */
  function MarshalNode(n: Node): (m: seq<byte>)
    ensures |m| == 1 + |n.ip| + 2 + PublicKeySize && m[0] == n.nodeType
  {
    [n.nodeType] + n.ip + BE(n.port % 0x1_0000, 2) + n.publicKey
  }

  lemma MarshalNodeFields(n: Node)
    ensures var m := MarshalNode(n);
      && |m| == 1 + |n.ip| + 2 + PublicKeySize
      && m[0] == n.nodeType
      && m[1..1 + |n.ip|] == n.ip
      && BE16(m[1 + |n.ip|..3 + |n.ip|]) == n.port % 0x1_0000
      && m[3 + |n.ip|..] == n.publicKey
  {
    var m := MarshalNode(n);
    var h := 1 + |n.ip|;
    var head, port := [n.nodeType] + n.ip, BE(n.port % 0x1_0000, 2);
    assert m == head + port + n.publicKey;
    assert m[1..h] == head[1..] == n.ip;
    assert m[h..h + 2] == port;
    Pow256Widths();
    BERoundTrip(n.port % 0x1_0000, 2);
  }

  /** The first 32 bytes of `s`, zero-filled when `s` is shorter: what a
      short Read leaves in a key buffer. */
  function PadKey(s: seq<byte>): Key
  {
    var k := Min(PublicKeySize, |s|);
    s[..k] + Zeros(PublicKeySize - k)
  }

  /** A Read into a key buffer with bytes left. */
  lemma ReadPadsKey(r: Reader)
    requires r.pos < |r.data|
    ensures r.Read(PublicKeySize).Ok? && r.Read(PublicKeySize).value.0 == PadKey(r.data[r.pos..])
  {
    var k := Min(PublicKeySize, |r.data| - r.pos);
    assert r.data[r.pos..][..k] == r.data[r.pos..r.pos + k];
  }

  /** What Node.UnmarshalBinary accepts and decodes.  The family comes
      first; the IP must then be complete, because the port that follows is
      read with binary.Read; of the key at least one byte must be present,
      the rest is zero-filled; bytes after the key are ignored. */
  function ParseNode(data: seq<byte>): Result<Node>
  {
    if |data| == 0 then Err(EOF)
    else if !ValidFamily(data[0]) then Err(UnknownAddressFamily(data[0]))
    else
      var h := 1 + IPSize(data[0]);
      if |data| <= h then Err(EOF)
      else if |data| == h + 1 then Err(UnexpectedEOF)
      else if |data| == h + 2 then Err(EOF)
      else Ok(Node(data[0], PadKey(data[h + 2..]), data[1..h], BE16(data[h..h + 2])))
  }

  /** Node.UnmarshalBinary. */
  method UnmarshalNode(data: seq<byte>) returns (r: Result<Node>)
    ensures r == ParseNode(data)
  {
    var reader := NewReader(data);
    var t := reader.ReadFull(1);
    if t.Err? {
      return Err(t.error);
    }
    var nodeType := t.value.0[0];
    assert nodeType == data[0];
    reader := t.value.1;
    var ipSize: nat;
    if nodeType == NodeTypeUDPIP4 || nodeType == NodeTypeTCPIP4 {
      ipSize := 4;
    } else if nodeType == NodeTypeUDPIP6 || nodeType == NodeTypeTCPIP6 {
      ipSize := 16;
    } else {
      return Err(UnknownAddressFamily(nodeType));
    }
    var h := 1 + ipSize;
    assert h == 1 + IPSize(data[0]);
    var ip := reader.Read(ipSize);
    if ip.Err? {
      return Err(ip.error);
    }
    reader := ip.value.1;
    if |data| < h {
      ShortIPFailsPort(data, h, reader);
    }
    var port := reader.ReadFull(2);
    if port.Err? {
      return Err(port.error);
    }
    reader := port.value.1;
    assert reader == Reader(data, h + 2);
    var key := reader.Read(PublicKeySize);
    if key.Err? {
      return Err(key.error);
    }
    ReadPadsKey(reader);
    return Ok(Node(nodeType, key.value.0, ip.value.0, BE16(port.value.0)));
  }

  /** An IP cut short leaves the reader at the end of the input, so the
      port read after it meets the end. */
  lemma ShortIPFailsPort(data: seq<byte>, h: nat, reader: Reader)
    requires 1 < |data| < h && reader == Reader(data, |data|)
    ensures reader.ReadFull(2) == Err(EOF)
  {
  }

  /** Node.UnmarshalBinary accepts a valid family followed by a whole IP,
      a whole port and at least one key byte, and then yields a well-formed
      node of that family. */
  lemma ParseNodeAccepts(data: seq<byte>)
    ensures ParseNode(data).Ok? <==> |data| > 0 && ValidFamily(data[0]) && |data| >= IPSize(data[0]) + 4
    ensures |data| > 0 && !ValidFamily(data[0]) ==> ParseNode(data) == Err(UnknownAddressFamily(data[0]))
    ensures ParseNode(data).Ok? ==> WellFormedNode(ParseNode(data).value) && ParseNode(data).value.nodeType == data[0]
  {
  }

  lemma NodeRoundTrip(n: Node)
    requires WellFormedNode(n)
    ensures ParseNode(MarshalNode(n)) == Ok(n)
  {
    var m := MarshalNode(n);
    MarshalNodeFields(n);
    assert PadKey(m[3 + |n.ip|..]) == n.publicKey;
  }

  /** A decoded node marshals back to the first record of the input, with
      the key bytes the input lacked as zeros. */
  lemma ParseNodeThenMarshal(data: seq<byte>)
    requires ParseNode(data).Ok?
    ensures var n := ParseNode(data).value; var size := NodeSize(data[0]);
      MarshalNode(n) == (data + Zeros(size))[..size]
  {
    var n := ParseNode(data).value;
    var h := 1 + IPSize(data[0]);
    var size := NodeSize(data[0]);
    var padded := data + Zeros(size);
    assert padded[..size] == padded[..h + 2] + padded[h + 2..size];
    assert padded[..h + 2] == [data[0]] + data[1..h] + data[h..h + 2];
    PaddedKey(data, h + 2, size);
    BEOfValue(data[h..h + 2]);
    Pow256Widths();
    assert BE(n.port % 0x1_0000, 2) == data[h..h + 2];
  }

  /** The key bytes a short Read leaves, as zeros past the end of the
      input. */
  lemma PaddedKey(data: seq<byte>, j: nat, size: nat)
    requires j < |data| && size == j + PublicKeySize
    ensures (data + Zeros(size))[j..size] == PadKey(data[j..])
  {
    var l, r := (data + Zeros(size))[j..size], PadKey(data[j..]);
    var k := Min(PublicKeySize, |data| - j);
    forall i | 0 <= i < PublicKeySize
      ensures l[i] == r[i]
    {
      if i < k {
        assert l[i] == data[j + i] && r[i] == data[j..][i];
      } else {
        assert l[i] == 0 && r[i] == 0;
      }
    }
  }

  // ---------------------------------------------------------------------
  // GetNodes

  /** GetNodesPacket.MarshalBinary: target key, then the ping id. */
  function MarshalGetNodes(p: GetNodesPacket): seq<byte>
  {
    p.publicKey + BE(p.pingID, 8)
  }

  /** What GetNodesPacket.UnmarshalBinary accepts: at least 40 bytes. */
  function ParseGetNodes(data: seq<byte>): Result<GetNodesPacket>
  {
    if |data| <= PublicKeySize then Err(EOF)
    else if |data| < PublicKeySize + 8 then Err(UnexpectedEOF)
    else Ok(GetNodesPacket(data[..PublicKeySize], BE64(data[PublicKeySize..PublicKeySize + 8])))
  }

  /** GetNodesPacket.UnmarshalBinary. */
  method UnmarshalGetNodes(data: seq<byte>) returns (r: Result<GetNodesPacket>)
    ensures r == ParseGetNodes(data)
    ensures r.Ok? <==> |data| >= 40
  {
    var reader := NewReader(data);
    var key := reader.Read(PublicKeySize);
    if key.Err? {
      return Err(key.error);
    }
    reader := key.value.1;
    var id := reader.ReadFull(8);
    if id.Err? {
      return Err(id.error);
    }
    assert key.value.0 == data[..PublicKeySize];
    return Ok(GetNodesPacket(key.value.0, BE64(id.value.0)));
  }

  /** GetNodes round-trips, whatever follows its 40 bytes. */
  lemma GetNodesRoundTrip(p: GetNodesPacket, trailing: seq<byte>)
    ensures |MarshalGetNodes(p)| == 40
    ensures ParseGetNodes(MarshalGetNodes(p) + trailing) == Ok(p)
  {
    var m := MarshalGetNodes(p) + trailing;
    assert m[..32] == p.publicKey;
    assert m[32..40] == BE(p.pingID, 8);
    BE64RoundTrip(p.pingID);
  }

  lemma ParseGetNodesThenMarshal(data: seq<byte>)
    requires ParseGetNodes(data).Ok?
    ensures MarshalGetNodes(ParseGetNodes(data).value) == data[..40]
  {
    Pow256Widths();
    BEOfValue(data[32..40]);
    assert data[..40] == data[..32] + data[32..40];
  }

  // ---------------------------------------------------------------------
  // EncryptedPacket

  /** EncryptedPacket.MarshalBinary. */
  function MarshalEncrypted(p: EncryptedPacket): seq<byte>
  {
    [p.packetType] + p.senderPublicKey + p.nonce + p.payload
  }

  /** What EncryptedPacket.UnmarshalBinary accepts: the 57-byte header and
      at least one payload byte, since reading the payload at the end of
      the input gives EOF.  Every failure is EOF. */
  function ParseEncrypted(data: seq<byte>): Result<EncryptedPacket>
  {
    if |data| <= EnvelopeHeaderSize then Err(EOF)
    else Ok(EncryptedPacket(data[0], data[1..33], data[33..57], data[57..]))
  }

  /** EncryptedPacket.UnmarshalBinary. */
  method UnmarshalEncrypted(data: seq<byte>) returns (r: Result<EncryptedPacket>)
    ensures r == ParseEncrypted(data)
    ensures r.Ok? <==> |data| >= EnvelopeHeaderSize + 1
  {
    var reader := NewReader(data);
    var t := reader.ReadFull(1);
    if t.Err? {
      return Err(t.error);
    }
    reader := t.value.1;
    var key := reader.Read(PublicKeySize);
    if key.Err? {
      return Err(key.error);
    }
    reader := key.value.1;
    var nonce := reader.Read(NonceSize);
    if nonce.Err? {
      return Err(nonce.error);
    }
    reader := nonce.value.1;
    var payload := reader.Read(reader.Len());
    if payload.Err? {
      return Err(payload.error);
    }
    assert key.value.0 == data[1..33] && nonce.value.0 == data[33..57];
    assert payload.value.0 == data[57..];
    return Ok(EncryptedPacket(t.value.0[0], key.value.0, nonce.value.0, payload.value.0));
  }

  lemma EncryptedRoundTrip(p: EncryptedPacket)
    ensures ParseEncrypted(MarshalEncrypted(p)) == if |p.payload| > 0 then Ok(p) else Err(EOF)
  {
    var m := MarshalEncrypted(p);
    assert |m| == EnvelopeHeaderSize + |p.payload|;
    if |p.payload| > 0 {
      assert m[1..33] == p.senderPublicKey;
      assert m[33..57] == p.nonce;
      assert m[57..] == p.payload;
    }
  }

  lemma ParseEncryptedThenMarshal(data: seq<byte>)
    requires ParseEncrypted(data).Ok?
    ensures MarshalEncrypted(ParseEncrypted(data).value) == data
  {
    assert data == [data[0]] + data[1..33] + data[33..57] + data[57..];
  }

  // ---------------------------------------------------------------------
  // SendNodes

  /** The node records of a SendNodes packet, back to back. */
  function MarshalNodes(nodes: seq<Node>): seq<byte>
  {
    if |nodes| == 0 then [] else MarshalNodes(nodes[..|nodes| - 1]) + MarshalNode(nodes[|nodes| - 1])
  }

  lemma {:induction false} MarshalNodesCons(n: Node, rest: seq<Node>)
    ensures MarshalNodes([n] + rest) == MarshalNode(n) + MarshalNodes(rest)
    decreases |rest|
  {
    if |rest| > 0 {
      var all := [n] + rest;
      assert all[..|all| - 1] == [n] + rest[..|rest| - 1];
      MarshalNodesCons(n, rest[..|rest| - 1]);
    } else {
      assert [n] + rest == [n];
      assert [n][..0] == [];
    }
  }

  /** The bytes SendNodesPacket.MarshalBinary writes when it succeeds:
      count byte, the node records in order, the ping id. */
  function EncodeSendNodes(p: SendNodesPacket): seq<byte>
    requires |p.nodes| <= MaxNodes
  {
    [|p.nodes|] + MarshalNodes(p.nodes) + BE(p.pingID, 8)
  }

  /** SendNodesPacket.MarshalBinary. */
  method MarshalSendNodes(p: SendNodesPacket) returns (r: Result<seq<byte>>)
    ensures |p.nodes| > MaxNodes ==> r == Err(TooManyNodes)
    ensures |p.nodes| <= MaxNodes ==> r == Ok(EncodeSendNodes(p))
  {
    if |p.nodes| > MaxNodes {
      return Err(TooManyNodes);
    }
    var buff := [|p.nodes|];
    for i := 0 to |p.nodes|
      invariant buff == [|p.nodes|] + MarshalNodes(p.nodes[..i])
    {
      assert p.nodes[..i + 1][..i] == p.nodes[..i];
      buff := buff + MarshalNode(p.nodes[i]);
    }
    assert p.nodes[..|p.nodes|] == p.nodes;
    buff := buff + BE(p.pingID, 8);
    return Ok(buff);
  }

  /** The record a SendNodes node occupies from offset `off`: its bytes, and
      zeros for the part a short Read did not fill. */
  function NodeRecordAt(data: seq<byte>, off: nat): seq<byte>
    requires off < |data| && ValidFamily(data[off])
  {
    var end := Min(off + NodeSize(data[off]), |data|);
    data[off..end] + Zeros(off + NodeSize(data[off]) - end)
  }

  /** One node record read at offset `off` the way the SendNodes loop
      reads it: the family byte (binary.Read), then the rest of the record
      with one Read, which may come up short and leave zeros; the record is
      then decoded by Node.UnmarshalBinary.  Yields the node and the
      offset after it. */
  function ParseNodeRecord(data: seq<byte>, off: nat): (r: Result<(Node, nat)>)
    requires off <= |data|
    ensures r.Ok? ==> off < r.value.1 <= |data| && ValidFamily(data[off])
    ensures r.Ok? ==> r.value.1 == Min(off + NodeSize(data[off]), |data|)
  {
    if off == |data| then Err(EOF)
    else if !ValidFamily(data[off]) then Err(BadAddressFamily(data[off]))
    else if off + 1 == |data| then Err(EOF)
    else
      match ParseNode(NodeRecordAt(data, off))
      case Err(e) => Err(e)
      case Ok(node) => Ok((node, Min(off + NodeSize(data[off]), |data|)))
  }

  /** `count` node records read one after the other from offset `off`;
      yields the nodes and the offset after the last. */
  function ParseNodeRecords(data: seq<byte>, off: nat, count: nat): (r: Result<(seq<Node>, nat)>)
    requires off <= |data|
    ensures r.Ok? ==> off <= r.value.1 <= |data| && |r.value.0| == count
    decreases count
  {
    if count == 0 then Ok(([], off))
    else
      match ParseNodeRecord(data, off)
      case Err(e) => Err(e)
      case Ok((node, next)) =>
        match ParseNodeRecords(data, next, count - 1)
        case Err(e) => Err(e)
        case Ok((nodes, end)) => Ok(([node] + nodes, end))
  }

  /** What SendNodesPacket.UnmarshalBinary accepts and decodes. */
  function ParseSendNodes(data: seq<byte>): Result<SendNodesPacket>
  {
    if |data| == 0 then Err(EOF)
    else if data[0] > MaxNodes then Err(TooManyNodes)
    else
      match ParseNodeRecords(data, 1, data[0])
      case Err(e) => Err(e)
      case Ok((nodes, off)) =>
        if off == |data| then Err(EOF)
        else if |data| - off < 8 then Err(UnexpectedEOF)
        else Ok(SendNodesPacket(nodes, BE64(data[off..off + 8])))
  }

  function Prepend(nodes: seq<Node>, r: Result<(seq<Node>, nat)>): Result<(seq<Node>, nat)>
  {
    match r
    case Err(e) => Err(e)
    case Ok((more, off)) => Ok((nodes + more, off))
  }

  lemma PrependNothing(r: Result<(seq<Node>, nat)>)
    ensures Prepend([], r) == r
  {
    if r.Ok? {
      assert [] + r.value.0 == r.value.0;
    }
  }

  /** The two steps a record read adds to a partial parse. */
  lemma PrependStep(data: seq<byte>, nodes: seq<Node>, pos: nat, k: nat, node: Node, next: nat)
    requires pos <= |data| && k > 0
    requires ParseNodeRecord(data, pos) == Ok((node, next))
    ensures Prepend(nodes, ParseNodeRecords(data, pos, k)) == Prepend(nodes + [node], ParseNodeRecords(data, next, k - 1))
  {
    var tail := ParseNodeRecords(data, next, k - 1);
    if tail.Ok? {
      assert nodes + ([node] + tail.value.0) == nodes + [node] + tail.value.0;
    }
  }

  /** The one Read of a record after its family byte yields the rest of
      the record NodeRecordAt describes, which always decodes. */
  lemma ReadRestOfRecord(data: seq<byte>, pos: nat)
    requires pos + 1 < |data| && ValidFamily(data[pos])
    ensures var rest := Reader(data, pos + 1).Read(NodeSize(data[pos]) - 1);
      && rest.Ok?
      && [data[pos]] + rest.value.0 == NodeRecordAt(data, pos)
      && rest.value.1 == Reader(data, Min(pos + NodeSize(data[pos]), |data|))
      && ParseNode(NodeRecordAt(data, pos)).Ok?
  {
    var end := Min(pos + NodeSize(data[pos]), |data|);
    assert [data[pos]] + data[pos + 1..end] == data[pos..end];
  }

  /** The body of the SendNodes loop: one node read from the cursor. */
  method ReadNodeRecord(reader: Reader) returns (r: Result<(Node, Reader)>)
    requires reader.pos <= |reader.data|
    ensures match ParseNodeRecord(reader.data, reader.pos)
      case Err(e) => r == Err(e)
      case Ok((node, next)) => r == Ok((node, Reader(reader.data, next)))
  {
    var data, pos := reader.data, reader.pos;
    var t := reader.ReadFull(1);
    if t.Err? {
      return Err(t.error);
    }
    var nodeType := t.value.0[0];
    var rd := t.value.1;
    var ipSize: nat;
    if nodeType == NodeTypeUDPIP4 || nodeType == NodeTypeTCPIP4 {
      ipSize := 4;
    } else if nodeType == NodeTypeUDPIP6 || nodeType == NodeTypeTCPIP6 {
      ipSize := 16;
    } else {
      return Err(BadAddressFamily(nodeType));
    }
    if rd.Len() > 0 {
      ReadRestOfRecord(data, pos);
    }
    var rest := rd.Read(ipSize + 2 + PublicKeySize);
    if rest.Err? {
      return Err(rest.error);
    }
    rd := rest.value.1;
    var nodeBytes := [nodeType] + rest.value.0;
    var node := UnmarshalNode(nodeBytes);
    if node.Err? {
      // nodeBytes is a whole record of a valid family, which always decodes
      assert false;
    }
    return Ok((node.value, rd));
  }

  /** The loop of SendNodesPacket.UnmarshalBinary: `count` records read
      one after the other from the cursor. */
  method ReadNodeRecords(reader: Reader, count: nat) returns (r: Result<(seq<Node>, Reader)>)
    requires reader.pos <= |reader.data|
    ensures match ParseNodeRecords(reader.data, reader.pos, count)
      case Err(e) => r == Err(e)
      case Ok((nodes, end)) => r == Ok((nodes, Reader(reader.data, end)))
  {
    var data, start := reader.data, reader.pos;
    var rd := reader;
    var nodes: seq<Node> := [];
    var i := 0;
    PrependNothing(ParseNodeRecords(data, start, count));
    while i < count
      invariant 0 <= i <= count
      invariant rd.data == data && start <= rd.pos <= |data|
      invariant ParseNodeRecords(data, start, count) == Prepend(nodes, ParseNodeRecords(data, rd.pos, count - i))
    {
      var next := ReadNodeRecord(rd);
      if next.Err? {
        return Err(next.error);
      }
      PrependStep(data, nodes, rd.pos, count - i, next.value.0, next.value.1.pos);
      nodes := nodes + [next.value.0];
      rd := next.value.1;
      i := i + 1;
    }
    assert nodes + [] == nodes;
    return Ok((nodes, rd));
  }

  /** SendNodesPacket.UnmarshalBinary. */
  method UnmarshalSendNodes(data: seq<byte>) returns (r: Result<SendNodesPacket>)
    ensures r == ParseSendNodes(data)
  {
    var reader := NewReader(data);
    var c := reader.ReadFull(1);
    if c.Err? {
      return Err(c.error);
    }
    var count := c.value.0[0];
    assert count == data[0];
    reader := c.value.1;
    if count > MaxNodes {
      return Err(TooManyNodes);
    }
    var records := ReadNodeRecords(reader, count);
    if records.Err? {
      return Err(records.error);
    }
    var (nodes, end) := ParseNodeRecords(data, 1, count).value;
    reader := records.value.1;
    assert records.value == (nodes, Reader(data, end));
    SendNodesTail(data, nodes, end);
    var id := reader.ReadFull(8);
    if id.Err? {
      return Err(id.error);
    }
    return Ok(SendNodesPacket(nodes, BE64(id.value.0)));
  }

  /** What ParseSendNodes yields once the node records have been read. */
  lemma SendNodesTail(data: seq<byte>, nodes: seq<Node>, end: nat)
    requires |data| > 0 && data[0] <= MaxNodes
    requires ParseNodeRecords(data, 1, data[0]) == Ok((nodes, end))
    ensures ParseSendNodes(data)
         == if end == |data| then Err(EOF)
            else if |data| - end < 8 then Err(UnexpectedEOF)
            else Ok(SendNodesPacket(nodes, BE64(data[end..end + 8])))
  {
  }

  /** A well-formed node's record, wherever it lies in the input, is read
      back as that node. */
  lemma ReadMarshalledNode(n: Node, data: seq<byte>, off: nat)
    requires WellFormedNode(n)
    requires off + |MarshalNode(n)| <= |data| && data[off..off + |MarshalNode(n)|] == MarshalNode(n)
    ensures ParseNodeRecord(data, off) == Ok((n, off + |MarshalNode(n)|))
  {
    var m := MarshalNode(n);
    MarshalNodeFields(n);
    assert data[off] == m[0];
    assert NodeRecordAt(data, off) == m;
    NodeRoundTrip(n);
  }

  /** A well-formed node's record followed by records that parse. */
  lemma ReadMarshalledNodeThen(n: Node, data: seq<byte>, off: nat, rest: seq<Node>, end: nat)
    requires WellFormedNode(n)
    requires off + |MarshalNode(n)| <= |data| && data[off..off + |MarshalNode(n)|] == MarshalNode(n)
    requires ParseNodeRecords(data, off + |MarshalNode(n)|, |rest|) == Ok((rest, end))
    ensures ParseNodeRecords(data, off, |rest| + 1) == Ok(([n] + rest, end))
  {
    ReadMarshalledNode(n, data, off);
    ParseNodeRecordsCons(data, off, |rest|, n, off + |MarshalNode(n)|, rest, end);
  }

  /** The records of `nodes`, one after the other from `off`, ending at
      `end`. */
  predicate RecordsAt(data: seq<byte>, off: nat, nodes: seq<Node>, end: nat)
    decreases |nodes|
  {
    if |nodes| == 0 then end == off
    else
      var m := MarshalNode(nodes[0]);
      off + |m| <= |data| && data[off..off + |m|] == m && RecordsAt(data, off + |m|, nodes[1..], end)
  }

  /** Marshalled nodes lie in the input record after record. */
  lemma {:induction false} MarshalledRecordsAt(nodes: seq<Node>, data: seq<byte>, off: nat, end: nat)
    requires end == off + |MarshalNodes(nodes)| && end <= |data| && data[off..end] == MarshalNodes(nodes)
    ensures RecordsAt(data, off, nodes, end)
    decreases |nodes|
  {
    if |nodes| > 0 {
      var n, rest := nodes[0], nodes[1..];
      assert nodes == [n] + rest;
      MarshalNodesCons(n, rest);
      SliceSplit(data, off, MarshalNode(n), MarshalNodes(rest));
      MarshalledRecordsAt(rest, data, off + |MarshalNode(n)|, end);
    } else {
      assert MarshalNodes(nodes) == [];
    }
  }

  /** Well-formed nodes' records, back to back wherever they lie in the
      input, are read back as those nodes. */
  lemma {:induction false} ReadNodeRecordsAt(nodes: seq<Node>, data: seq<byte>, off: nat, end: nat)
    requires forall i :: 0 <= i < |nodes| ==> WellFormedNode(nodes[i])
    requires off <= |data| && RecordsAt(data, off, nodes, end)
    ensures ParseNodeRecords(data, off, |nodes|) == Ok((nodes, end))
    decreases |nodes|
  {
    if |nodes| > 0 {
      var n, rest := nodes[0], nodes[1..];
      forall i | 0 <= i < |rest| ensures WellFormedNode(rest[i]) {
        assert rest[i] == nodes[i + 1];
      }
      ReadNodeRecordsAt(rest, data, off + |MarshalNode(n)|, end);
      ReadMarshalledNodeThen(n, data, off, rest, end);
      assert [n] + rest == nodes;
    }
  }

  /** A record read followed by `count` more. */
  lemma ParseNodeRecordsCons(data: seq<byte>, off: nat, count: nat, node: Node, next: nat, nodes: seq<Node>, end: nat)
    requires off <= |data| && next <= |data|
    requires ParseNodeRecord(data, off) == Ok((node, next))
    requires ParseNodeRecords(data, next, count) == Ok((nodes, end))
    ensures ParseNodeRecords(data, off, count + 1) == Ok(([node] + nodes, end))
  {
  }

  /** A packet of at most 4 well-formed nodes is read back from its
      marshalling, whatever follows it. */
  lemma SendNodesRoundTrip(p: SendNodesPacket, trailing: seq<byte>)
    requires |p.nodes| <= MaxNodes
    requires forall i :: 0 <= i < |p.nodes| ==> WellFormedNode(p.nodes[i])
    ensures ParseSendNodes(EncodeSendNodes(p) + trailing) == Ok(p)
  {
    var body := MarshalNodes(p.nodes);
    var data := EncodeSendNodes(p) + trailing;
    var off := 1 + |body|;
    SendNodesLayout(p, trailing, data, body);
    MarshalledRecordsAt(p.nodes, data, 1, off);
    ReadNodeRecordsAt(p.nodes, data, 1, off);
    SendNodesTail(data, p.nodes, off);
    BE64RoundTrip(p.pingID);
  }

  /** Where the parts of an encoded SendNodes packet lie. */
  lemma SendNodesLayout(p: SendNodesPacket, trailing: seq<byte>, data: seq<byte>, body: seq<byte>)
    requires |p.nodes| <= MaxNodes
    requires body == MarshalNodes(p.nodes) && data == EncodeSendNodes(p) + trailing
    ensures |data| == 1 + |body| + 8 + |trailing| && data[0] == |p.nodes|
    ensures data[1..1 + |body|] == body
    ensures data[1 + |body|..1 + |body| + 8] == BE(p.pingID, 8)
  {
    assert data == [|p.nodes|] + body + (BE(p.pingID, 8) + trailing);
  }

  /** A successful ParseNodeRecords of at least one record: a node record
      read at `off`, then the rest parsed from the offset after it. */
  lemma ParseNodeRecordsUncons(data: seq<byte>, off: nat, count: nat, nodes: seq<Node>, end: nat)
    requires off <= |data| && count > 0
    requires ParseNodeRecords(data, off, count) == Ok((nodes, end))
    ensures ParseNodeRecord(data, off).Ok? && |nodes| > 0
    ensures var (node, next) := ParseNodeRecord(data, off).value;
      && node == nodes[0]
      && ParseNodeRecords(data, next, count - 1) == Ok((nodes[1..], end))
  {
    var (node, next) := ParseNodeRecord(data, off).value;
    var rest := ParseNodeRecords(data, next, count - 1).value.0;
    assert ([node] + rest)[1..] == rest;
  }

  /** A record read whole, with input left after it, is the marshalling
      of the node it decodes to. */
  lemma WholeRecordMarshals(data: seq<byte>, off: nat, node: Node, next: nat)
    requires off <= |data| && next < |data|
    requires ParseNodeRecord(data, off) == Ok((node, next))
    ensures WellFormedNode(node) && data[off..next] == MarshalNode(node)
  {
    var size := NodeSize(data[off]);
    var record := NodeRecordAt(data, off);
    assert record == data[off..next];
    ParseNodeThenMarshal(record);
    assert (record + Zeros(size))[..size] == record;
  }

  lemma AllWellFormedCons(node: Node, nodes: seq<Node>)
    requires WellFormedNode(node)
    requires forall i :: 0 <= i < |nodes| ==> WellFormedNode(nodes[i])
    ensures forall i :: 0 <= i < |[node] + nodes| ==> WellFormedNode(([node] + nodes)[i])
  {
    var all := [node] + nodes;
    forall i | 0 <= i < |all| ensures WellFormedNode(all[i]) {
      if i > 0 { assert all[i] == nodes[i - 1]; }
    }
  }

  /** A complete record followed by complete records. */
  lemma CompleteRecordsCons(data: seq<byte>, off: nat, next: nat, end: nat, node: Node, rest: seq<Node>)
    requires off <= next <= end <= |data|
    requires WellFormedNode(node) && data[off..next] == MarshalNode(node)
    requires forall i :: 0 <= i < |rest| ==> WellFormedNode(rest[i])
    requires data[next..end] == MarshalNodes(rest)
    ensures data[off..end] == MarshalNodes([node] + rest)
    ensures forall i :: 0 <= i < |[node] + rest| ==> WellFormedNode(([node] + rest)[i])
  {
    MarshalNodesCons(node, rest);
    assert data[off..end] == data[off..next] + data[next..end];
    AllWellFormedCons(node, rest);
  }

  /** Records that parse and are followed by at least one more byte were
      complete: they are exactly the marshalled nodes, all well formed. */
  lemma {:induction false} ParseNodeRecordsComplete(data: seq<byte>, off: nat, count: nat, nodes: seq<Node>, end: nat)
    requires off <= |data| && end < |data|
    requires ParseNodeRecords(data, off, count) == Ok((nodes, end))
    ensures data[off..end] == MarshalNodes(nodes)
    ensures forall i :: 0 <= i < |nodes| ==> WellFormedNode(nodes[i])
    decreases count
  {
    if count > 0 {
      ParseNodeRecordsUncons(data, off, count, nodes, end);
      var next := ParseNodeRecord(data, off).value.1;
      var node, rest := nodes[0], nodes[1..];
      ParseNodeRecordsComplete(data, next, count - 1, rest, end);
      WholeRecordMarshals(data, off, node, next);
      assert nodes == [node] + rest;
      CompleteRecordsCons(data, off, next, end, node, rest);
    } else {
      assert nodes == [] && data[off..off] == [];
    }
  }

  /** A SendNodes packet that parses was sent whole: at most 4 well-formed
      nodes, and its marshalling is the prefix of the input it came from.
      So a node cut short by the end of the input, which the reader
      zero-fills, is never accepted: the ping id after it is missing. */
  lemma ParseSendNodesThenMarshal(data: seq<byte>)
    requires ParseSendNodes(data).Ok?
    ensures var p := ParseSendNodes(data).value;
      && |p.nodes| <= MaxNodes
      && (forall i :: 0 <= i < |p.nodes| ==> WellFormedNode(p.nodes[i]))
      && |EncodeSendNodes(p)| <= |data|
      && data[..|EncodeSendNodes(p)|] == EncodeSendNodes(p)
  {
    var (nodes, off) := ParseNodeRecords(data, 1, data[0]).value;
    ParseNodeRecordsComplete(data, 1, data[0], nodes, off);
    SendNodesPrefix(data, nodes, off);
  }

  /** The marshalling of the packet a SendNodes parse yields, given where
      its parts lie in the input. */
  lemma SendNodesPrefix(data: seq<byte>, nodes: seq<Node>, off: nat)
    requires 1 <= off && off + 8 <= |data| && |nodes| <= MaxNodes && data[0] as nat == |nodes|
    requires data[1..off] == MarshalNodes(nodes)
    ensures var p := SendNodesPacket(nodes, BE64(data[off..off + 8]));
      |EncodeSendNodes(p)| == off + 8 && data[..off + 8] == EncodeSendNodes(p)
  {
    Pow256Widths();
    BEOfValue(data[off..off + 8]);
    assert data[..off + 8] == [data[0]] + data[1..off] + data[off..off + 8];
  }

  // ---------------------------------------------------------------------
  // PingRequest and PingResponse

  /** PingRequestPacket.MarshalBinary: its own tag 0, then the ping id. */
  function MarshalPingRequest(p: PingRequestPacket): seq<byte>
  {
    [PacketTypePingRequest] + BE(p.pingID, 8)
  }

  /** PingResponsePacket.MarshalBinary: its own tag 1, then the ping id. */
  function MarshalPingResponse(p: PingResponsePacket): seq<byte>
  {
    [PacketTypePingResponse] + BE(p.pingID, 8)
  }

  /** What the ping UnmarshalBinary methods accept: a first byte equal to
      the packet's own tag, then an 8-byte ping id. */
  function ParsePingID(data: seq<byte>, tag: byte): Result<uint64>
  {
    if |data| == 0 then Err(EOF)
    else if data[0] != tag then Err(IncorrectPingType(data[0]))
    else if |data| == 1 then Err(EOF)
    else if |data| < 9 then Err(UnexpectedEOF)
    else Ok(BE64(data[1..9]))
  }

  function ParsePingRequest(data: seq<byte>): Result<PingRequestPacket>
  {
    match ParsePingID(data, PacketTypePingRequest)
    case Err(e) => Err(e)
    case Ok(id) => Ok(PingRequestPacket(id))
  }

  function ParsePingResponse(data: seq<byte>): Result<PingResponsePacket>
  {
    match ParsePingID(data, PacketTypePingResponse)
    case Err(e) => Err(e)
    case Ok(id) => Ok(PingResponsePacket(id))
  }

  /** The body shared by both ping UnmarshalBinary methods. */
  method UnmarshalPingID(data: seq<byte>, tag: byte) returns (r: Result<uint64>)
    ensures r == ParsePingID(data, tag)
    ensures r.Ok? <==> |data| >= 9 && data[0] == tag
  {
    var reader := NewReader(data);
    var t := reader.ReadFull(1);
    if t.Err? {
      return Err(t.error);
    } else if t.value.0[0] != tag {
      return Err(IncorrectPingType(t.value.0[0]));
    }
    reader := t.value.1;
    var id := reader.ReadFull(8);
    if id.Err? {
      return Err(id.error);
    }
    return Ok(BE64(id.value.0));
  }

  /** PingRequestPacket.UnmarshalBinary. */
  method UnmarshalPingRequest(data: seq<byte>) returns (r: Result<PingRequestPacket>)
    ensures r == ParsePingRequest(data)
  {
    var id := UnmarshalPingID(data, PacketTypePingRequest);
    if id.Err? {
      return Err(id.error);
    }
    return Ok(PingRequestPacket(id.value));
  }

  /** PingResponsePacket.UnmarshalBinary. */
  method UnmarshalPingResponse(data: seq<byte>) returns (r: Result<PingResponsePacket>)
    ensures r == ParsePingResponse(data)
  {
    var id := UnmarshalPingID(data, PacketTypePingResponse);
    if id.Err? {
      return Err(id.error);
    }
    return Ok(PingResponsePacket(id.value));
  }

  /** Each ping packet round-trips (bytes after the ninth are ignored), and
      neither kind is accepted as the other. */
  lemma PingRoundTrips(id: uint64, trailing: seq<byte>)
    ensures ParsePingRequest(MarshalPingRequest(PingRequestPacket(id)) + trailing) == Ok(PingRequestPacket(id))
    ensures ParsePingResponse(MarshalPingResponse(PingResponsePacket(id)) + trailing) == Ok(PingResponsePacket(id))
    ensures ParsePingResponse(MarshalPingRequest(PingRequestPacket(id))) == Err(IncorrectPingType(PacketTypePingRequest))
    ensures ParsePingRequest(MarshalPingResponse(PingResponsePacket(id))) == Err(IncorrectPingType(PacketTypePingResponse))
  {
    BE64RoundTrip(id);
    assert (MarshalPingRequest(PingRequestPacket(id)) + trailing)[1..9] == BE(id, 8);
    assert (MarshalPingResponse(PingResponsePacket(id)) + trailing)[1..9] == BE(id, 8);
  }

  lemma ParsePingThenMarshal(data: seq<byte>)
    ensures ParsePingRequest(data).Ok? ==> MarshalPingRequest(ParsePingRequest(data).value) == data[..9]
    ensures ParsePingResponse(data).Ok? ==> MarshalPingResponse(ParsePingResponse(data).value) == data[..9]
  {
    if |data| >= 9 {
      Pow256Widths();
      BEOfValue(data[1..9]);
      assert data[..9] == [data[0]] + data[1..9];
    }
  }

  // ---------------------------------------------------------------------
  // PacketType.String

  function PacketTypeName(t: byte): string
  {
    if t == PacketTypePingRequest then "PING_REQUEST"
    else if t == PacketTypePingResponse then "PING_RESPONSE"
    else if t == PacketTypeGetNodes then "GET_NODES"
    else if t == PacketTypeSendNodes then "SEND_NODES"
    else "UNKNOWN"
  }

  function DigitChar(d: nat): char
    requires d < 10
  {
    "0123456789"[d]
  }

  /** The decimal digits `%d` prints for a non-negative number. */
  function Decimal(n: nat): (s: string)
    ensures |s| > 0 && forall i :: 0 <= i < |s| ==> '0' <= s[i] <= '9'
  {
    if n < 10 then [DigitChar(n)] else Decimal(n / 10) + [DigitChar(n % 10)]
  }

  /** The number a string of decimal digits denotes. */
  function DecimalValue(s: string): nat
    requires forall i :: 0 <= i < |s| ==> '0' <= s[i] <= '9'
  {
    if |s| == 0 then 0 else DecimalValue(s[..|s| - 1]) * 10 + (s[|s| - 1] as int - '0' as int)
  }

  lemma {:induction false} DecimalRoundTrip(n: nat)
    ensures DecimalValue(Decimal(n)) == n
  {
    var s := Decimal(n);
    if n >= 10 {
      DecimalRoundTrip(n / 10);
      assert s[..|s| - 1] == Decimal(n / 10);
    }
  }

  /** PacketType.String: the type's name and its number, as "%s(%d)". */
  function PacketTypeString(t: byte): (s: string)
    ensures var k := |PacketTypeName(t)|;
      && k + 3 <= |s| && s[..k] == PacketTypeName(t) && s[k] == '(' && s[|s| - 1] == ')'
      && (forall i :: k < i < |s| - 1 ==> '0' <= s[i] <= '9')
      && DecimalValue(s[k + 1..|s| - 1]) == t as nat
  {
    DecimalRoundTrip(t as nat);
    assert (PacketTypeName(t) + "(" + Decimal(t) + ")")[|PacketTypeName(t)| + 1..|PacketTypeName(t)| + 1 + |Decimal(t)|] == Decimal(t);
    PacketTypeName(t) + "(" + Decimal(t) + ")"
  }

  /** Every type gets its own label, and the name is UNKNOWN exactly for the
      types no packet kind has. */
  lemma PacketTypeStringInjective(t: byte, u: byte)
    ensures PacketTypeString(t) == PacketTypeString(u) ==> t == u
    ensures PacketTypeName(t) == "UNKNOWN" <==> t !in {0, 1, 2, 4}
  {
    if PacketTypeString(t) == PacketTypeString(u) {
      var s := PacketTypeString(t);
      var a, b := PacketTypeName(t), PacketTypeName(u);
      assert |a| == |b| by {
        assert s[|a|] == '(' && s[|b|] == '(';
      }
      assert Decimal(t) == s[|a| + 1..|s| - 1] == Decimal(u);
      DecimalRoundTrip(t);
      DecimalRoundTrip(u);
    }
  }
}
