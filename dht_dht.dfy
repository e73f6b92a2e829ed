/** dht/dht.go, the earlier revision of dht/ident.go: the same identity
    under the name DHT.  Its three operations do what the Ident ones do, so
    they are stated against the same Seal and Open. */
module Dht {
  import opened Bytes
  import opened Errors
  import opened DhtPackets
  import opened DhtIdent

  /** DHT: the identity's own key pair. */
  datatype DHT = DHT(publicKey: Key, secretKey: Key)

  function AsIdent(d: DHT): Ident
  {
    Ident(d.publicKey, d.secretKey)
  }

  /** NewDHT, given what crypto.GenerateKeyPair returned. */
  method NewDHT(generated: Result<(Key, Key)>) returns (r: Result<DHT>)
    ensures generated.Ok? <==> r.Ok?
    ensures r.Ok? ==> r.value.publicKey == generated.value.0 && r.value.secretKey == generated.value.1
    ensures r.Err? ==> r.error == generated.error
  {
    if generated.Err? {
      return Err(generated.error);
    }
    var (publicKey, secretKey) := generated.value;
    return Ok(DHT(publicKey, secretKey));
  }

  /** DHT.EncryptPacket. */
  method EncryptPacket(d: DHT, c: Crypto, packet: Packet, publicKey: Key) returns (r: Result<EncryptedPacket>)
    ensures r == Seal(AsIdent(d), c, packet, publicKey)
    ensures r.Ok? ==> r.value.packetType == ID(packet) && r.value.senderPublicKey == d.publicKey
    ensures r.Ok? ==> c.encrypt(Marshal(packet).value, c.precomputeKey(publicKey, d.secretKey)) == Ok((r.value.payload, r.value.nonce))
    ensures Marshal(packet).Err? ==> r == Err(Marshal(packet).error)
  {
    r := DhtIdent.EncryptPacket(AsIdent(d), c, packet, publicKey);
  }

  /** DHT.DecryptPacket. */
  method DecryptPacket(d: DHT, c: Crypto, p: EncryptedPacket) returns (r: Result<Packet>)
    ensures r == Open(AsIdent(d), c, p)
    ensures r.Ok? ==> ID(r.value) == p.packetType
    ensures r.Ok? ==> c.decrypt(p.payload, c.precomputeKey(p.senderPublicKey, d.secretKey), p.nonce).Ok?
    ensures !KnownType(p.packetType) ==> r == Err(UnknownPacketType(p.packetType))
  {
    r := DhtIdent.DecryptPacket(AsIdent(d), c, p);
  }
}
