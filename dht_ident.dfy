/** dht/ident.go: a DHT identity (a key pair) that seals a packet into an
    EncryptedPacket envelope addressed to a peer, and opens an envelope by
    dispatching on its type tag.

    The crypto package is not part of this model.  Its operations enter as
    the fields of a `Crypto` value: PrecomputeKey derives the shared key
    from a public and a secret key, Encrypt seals a message under a shared
    key and yields the ciphertext and the nonce it chose, Decrypt opens a
    ciphertext.  The randomness Encrypt draws for its nonce is part of the
    `encrypt` value the caller passes, one per call.  GenerateKeyPair enters
    as its result. */
module DhtIdent {
  import opened Bytes
  import opened Errors
  import opened DhtPackets

  datatype Crypto = Crypto(
    precomputeKey: (Key, Key) -> Key,
    encrypt: (seq<byte>, Key) -> Result<(seq<byte>, Nonce)>,
    decrypt: (seq<byte>, Key, Nonce) -> Result<seq<byte>>)

  /** Ident: the identity's own key pair. */
  datatype Ident = Ident(publicKey: Key, secretKey: Key)

  /** NewIdent, given what crypto.GenerateKeyPair returned: the generated
      pair is stored, or the generator's error is returned and there is no
      identity. */
  function NewIdent(generated: Result<(Key, Key)>): (r: Result<Ident>)
    ensures generated.Ok? <==> r.Ok?
    ensures r.Ok? ==> r.value.publicKey == generated.value.0 && r.value.secretKey == generated.value.1
    ensures r.Err? ==> r.error == generated.error
  {
    match generated
    case Err(e) => Err(e)
    case Ok((pk, sk)) => Ok(Ident(pk, sk))
  }

  // ---------------------------------------------------------------------
  // Packet.MarshalBinary and UnmarshalBinary on the sum of packet kinds

  /** What the MarshalBinary of each packet kind yields. */
  function Marshal(p: Packet): Result<seq<byte>>
  {
    match p
    case GetNodes(g) => Ok(MarshalGetNodes(g))
    case SendNodes(s) => if |s.nodes| > MaxNodes then Err(TooManyNodes) else Ok(EncodeSendNodes(s))
    case PingRequest(q) => Ok(MarshalPingRequest(q))
    case PingResponse(q) => Ok(MarshalPingResponse(q))
  }

  method MarshalBinary(p: Packet) returns (r: Result<seq<byte>>)
    ensures r == Marshal(p)
    ensures r.Err? <==> p.SendNodes? && |p.sendNodes.nodes| > MaxNodes
    ensures r.Err? ==> r.error == TooManyNodes
  {
    match p
    case GetNodes(g) => r := Ok(MarshalGetNodes(g));
    case SendNodes(s) => r := MarshalSendNodes(s);
    case PingRequest(q) => r := Ok(MarshalPingRequest(q));
    case PingResponse(q) => r := Ok(MarshalPingResponse(q));
  }

  /** The tags DecryptPacket knows how to open. */
  predicate KnownType(t: byte)
  {
    t == PacketTypeGetNodes || t == PacketTypeSendNodes
    || t == PacketTypePingRequest || t == PacketTypePingResponse
  }

  /** The UnmarshalBinary of the packet kind the tag names. */
  function Unmarshal(t: byte, data: seq<byte>): (r: Result<Packet>)
    requires KnownType(t)
    ensures r.Ok? ==> ID(r.value) == t
  {
    if t == PacketTypeGetNodes then
      match ParseGetNodes(data) case Err(e) => Err(e) case Ok(g) => Ok(GetNodes(g))
    else if t == PacketTypeSendNodes then
      match ParseSendNodes(data) case Err(e) => Err(e) case Ok(s) => Ok(SendNodes(s))
    else if t == PacketTypePingRequest then
      match ParsePingRequest(data) case Err(e) => Err(e) case Ok(q) => Ok(PingRequest(q))
    else
      match ParsePingResponse(data) case Err(e) => Err(e) case Ok(q) => Ok(PingResponse(q))
  }

  method UnmarshalBinary(t: byte, data: seq<byte>) returns (r: Result<Packet>)
    requires KnownType(t)
    ensures r == Unmarshal(t, data)
  {
    if t == PacketTypeGetNodes {
      var g := UnmarshalGetNodes(data);
      r := if g.Err? then Err(g.error) else Ok(GetNodes(g.value));
    } else if t == PacketTypeSendNodes {
      var s := UnmarshalSendNodes(data);
      r := if s.Err? then Err(s.error) else Ok(SendNodes(s.value));
    } else if t == PacketTypePingRequest {
      var q := UnmarshalPingRequest(data);
      r := if q.Err? then Err(q.error) else Ok(PingRequest(q.value));
    } else {
      var q := UnmarshalPingResponse(data);
      r := if q.Err? then Err(q.error) else Ok(PingResponse(q.value));
    }
  }

  /** The packets whose marshalling every UnmarshalBinary reads back. */
  predicate WellFormedPacket(p: Packet)
  {
    p.SendNodes? ==>
      |p.sendNodes.nodes| <= MaxNodes
      && forall i :: 0 <= i < |p.sendNodes.nodes| ==> WellFormedNode(p.sendNodes.nodes[i])
  }

  lemma PacketRoundTrip(p: Packet)
    requires WellFormedPacket(p)
    ensures Marshal(p).Ok? && Unmarshal(ID(p), Marshal(p).value) == Ok(p)
  {
    match p
    case GetNodes(g) =>
      GetNodesRoundTrip(g, []);
      assert MarshalGetNodes(g) + [] == MarshalGetNodes(g);
    case SendNodes(s) =>
      SendNodesRoundTrip(s, []);
      assert EncodeSendNodes(s) + [] == EncodeSendNodes(s);
    case PingRequest(q) =>
      PingRoundTrips(q.pingID, []);
      assert MarshalPingRequest(q) + [] == MarshalPingRequest(q);
    case PingResponse(q) =>
      PingRoundTrips(q.pingID, []);
      assert MarshalPingResponse(q) + [] == MarshalPingResponse(q);
  }

  // ---------------------------------------------------------------------
  // EncryptPacket and DecryptPacket

  /** What Ident.EncryptPacket returns: the envelope is tagged with the
      packet's ID and the identity's own public key; a marshal error comes
      back before any key is derived, and an Encrypt error yields no
      envelope. */
  function Seal(id: Ident, c: Crypto, packet: Packet, peer: Key): Result<EncryptedPacket>
  {
    match Marshal(packet)
    case Err(e) => Err(e)
    case Ok(payload) =>
      match c.encrypt(payload, c.precomputeKey(peer, id.secretKey))
      case Err(e) => Err(e)
      case Ok((ciphertext, nonce)) => Ok(EncryptedPacket(ID(packet), id.publicKey, nonce, ciphertext))
  }

  /** What Ident.DecryptPacket returns: an unknown tag is rejected before
      any crypto; otherwise the payload is opened under the key shared with
      the envelope's sender and unmarshalled as the kind the tag names,
      Decrypt and unmarshal errors passed on. */
  function Open(id: Ident, c: Crypto, p: EncryptedPacket): Result<Packet>
  {
    if !KnownType(p.packetType) then Err(UnknownPacketType(p.packetType))
    else
      match c.decrypt(p.payload, c.precomputeKey(p.senderPublicKey, id.secretKey), p.nonce)
      case Err(e) => Err(e)
      case Ok(plain) => Unmarshal(p.packetType, plain)
  }

  /** Ident.EncryptPacket: fills in the envelope field by field. */
  method EncryptPacket(id: Ident, c: Crypto, packet: Packet, publicKey: Key) returns (r: Result<EncryptedPacket>)
    ensures r == Seal(id, c, packet, publicKey)
    ensures r.Ok? ==> r.value.packetType == ID(packet) && r.value.senderPublicKey == id.publicKey
    ensures Marshal(packet).Err? ==> r == Err(Marshal(packet).error)
  {
    var packetType := ID(packet);
    var senderPublicKey := id.publicKey;
    var payload := MarshalBinary(packet);
    if payload.Err? {
      return Err(payload.error);
    }
    var sharedKey := c.precomputeKey(publicKey, id.secretKey);
    var sealed := c.encrypt(payload.value, sharedKey);
    if sealed.Err? {
      return Err(sealed.error);
    }
    var nonce := sealed.value.1;
    var encryptedPayload := sealed.value.0;
    return Ok(EncryptedPacket(packetType, senderPublicKey, nonce, encryptedPayload));
  }

  /** Ident.DecryptPacket. */
  method DecryptPacket(id: Ident, c: Crypto, p: EncryptedPacket) returns (r: Result<Packet>)
    ensures r == Open(id, c, p)
    ensures r.Ok? ==> ID(r.value) == p.packetType
    ensures !KnownType(p.packetType) ==> r == Err(UnknownPacketType(p.packetType))
  {
    if !KnownType(p.packetType) {
      return Err(UnknownPacketType(p.packetType));
    }
    var sharedKey := c.precomputeKey(p.senderPublicKey, id.secretKey);
    var decrypted := c.decrypt(p.payload, sharedKey, p.nonce);
    if decrypted.Err? {
      return Err(decrypted.error);
    }
    r := UnmarshalBinary(p.packetType, decrypted.value);
  }

  /** A marshal error is returned without consulting the crypto at all, and
      an unknown tag is rejected without consulting it: both outcomes are
      the same whatever crypto is plugged in. */
  lemma ErrorsPrecedeCrypto(id: Ident, c1: Crypto, c2: Crypto, packet: Packet, peer: Key, p: EncryptedPacket)
    ensures Marshal(packet).Err? ==> Seal(id, c1, packet, peer) == Seal(id, c2, packet, peer) == Err(Marshal(packet).error)
    ensures !KnownType(p.packetType) ==> Open(id, c1, p) == Open(id, c2, p) == Err(UnknownPacketType(p.packetType))
  {
  }

  /** Sealing marshals the packet and encrypts it under
      PrecomputeKey(peer key, own secret key), and nothing else. */
  lemma SealContents(id: Ident, c: Crypto, packet: Packet, peer: Key)
    requires Seal(id, c, packet, peer).Ok?
    ensures Marshal(packet).Ok?
    ensures var e := Seal(id, c, packet, peer).value;
      c.encrypt(Marshal(packet).value, c.precomputeKey(peer, id.secretKey)) == Ok((e.payload, e.nonce))
  {
  }

  /** Decryption opens encryption under the same key. */
  predicate DecryptInverts(c: Crypto, k: Key, m: seq<byte>)
  {
    c.encrypt(m, k).Ok? ==> c.decrypt(c.encrypt(m, k).value.0, k, c.encrypt(m, k).value.1) == Ok(m)
  }

  /** Both ends derive the same shared key. */
  predicate SharedKeyAgrees(c: Crypto, a: Ident, b: Ident)
  {
    c.precomputeKey(b.publicKey, a.secretKey) == c.precomputeKey(a.publicKey, b.secretKey)
  }

  /** What `sender` seals for `receiver`, `receiver` opens to the same
      packet, given that the crypto behaves. */
  lemma SealThenOpen(sender: Ident, receiver: Ident, c: Crypto, packet: Packet)
    requires WellFormedPacket(packet)
    requires SharedKeyAgrees(c, sender, receiver)
    requires Marshal(packet).Ok? ==>
      DecryptInverts(c, c.precomputeKey(receiver.publicKey, sender.secretKey), Marshal(packet).value)
    requires c.encrypt(Marshal(packet).value, c.precomputeKey(receiver.publicKey, sender.secretKey)).Ok?
    ensures Seal(sender, c, packet, receiver.publicKey).Ok?
    ensures Open(receiver, c, Seal(sender, c, packet, receiver.publicKey).value) == Ok(packet)
  {
    PacketRoundTrip(packet);
    IDsAreDistinct(packet, packet);
  }
}
