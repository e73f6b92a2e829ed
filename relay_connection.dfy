/** relay/connection.go: a relay connection and its handshake.  The
    connection sends its own public key and a fresh base nonce, and is
    verified once the peer's answer echoes both back.  Encryption itself is
    not implemented: once verified, the packet operations say so.

    crypto.GenerateKeyPair and crypto.GenerateNonce enter as their
    results.  A payload field that is a nil pointer is `None`; the Go code
    dereferences it and panics, modelled as the NilPointer error. */
module RelayConnection {
  import opened Bytes
  import opened Errors

  /** HandshakePayload: the public key and base nonce a handshake carries. */
  datatype HandshakePayload = HandshakePayload(publicKey: Option<Key>, baseNonce: Option<Nonce>)

  /** The outcome of EndHandshake for a connection with base nonce
      `baseNonce` and public key `publicKey`: the answer must echo the
      nonce of a started handshake, then the connection's own key. */
  function HandshakeCheck(baseNonce: Option<Nonce>, publicKey: Key, res: HandshakePayload): (r: Option<Error>)
    ensures r.None? <==> baseNonce.Some? && res.baseNonce == baseNonce && res.publicKey == Some(publicKey)
    ensures baseNonce.None? ==> r == Some(HandshakeNoncesNotEqual)
  {
    if baseNonce.None? then Some(HandshakeNoncesNotEqual)
    else if res.baseNonce.None? then Some(NilPointer)
    else if res.baseNonce.value != baseNonce.value then Some(HandshakeNoncesNotEqual)
    else if res.publicKey.None? then Some(NilPointer)
    else if res.publicKey.value != publicKey then Some(HandshakePublicKeysNotEqual)
    else None
  }

  class Connection {
    var publicKey: Key
    var secretKey: Key
    var peerPublicKey: Key
    var verified: bool
    var baseNonce: Option<Nonce>

    constructor (publicKey: Key, secretKey: Key, peerPublicKey: Key)
      ensures this.publicKey == publicKey && this.secretKey == secretKey && this.peerPublicKey == peerPublicKey
      ensures !verified && baseNonce == None
    {
      this.publicKey := publicKey;
      this.secretKey := secretKey;
      this.peerPublicKey := peerPublicKey;
      verified := false;
      baseNonce := None;
    }

    /** NewConnection, given what crypto.GenerateKeyPair returned: a
        connection to the peer, unverified, with no base nonce and the
        generated key pair, or the generator's error. */
    static method NewConnection(peerPublicKey: Key, generated: Result<(Key, Key)>) returns (r: Result<Connection>)
      ensures generated.Err? ==> r == Err(generated.error)
      ensures generated.Ok? ==>
        && r.Ok? && fresh(r.value)
        && r.value.publicKey == generated.value.0 && r.value.secretKey == generated.value.1
        && r.value.peerPublicKey == peerPublicKey
        && !r.value.verified && r.value.baseNonce == None
    {
      if generated.Err? {
        return Err(generated.error);
      }
      var conn := new Connection(generated.value.0, generated.value.1, peerPublicKey);
      return Ok(conn);
    }

    /** StartHandshake, given what crypto.GenerateNonce returned: stores the
        nonce and returns the payload with the connection's own key and that
        nonce; a generator error changes nothing. */
    method StartHandshake(generated: Result<Nonce>) returns (r: Result<HandshakePayload>)
      modifies this
      ensures generated.Err? ==> r == Err(generated.error) && baseNonce == old(baseNonce)
      ensures generated.Ok? ==>
        && baseNonce == Some(generated.value)
        && r == Ok(HandshakePayload(Some(publicKey), Some(generated.value)))
      ensures verified == old(verified) && publicKey == old(publicKey)
      ensures secretKey == old(secretKey) && peerPublicKey == old(peerPublicKey)
    {
      if generated.Err? {
        return Err(generated.error);
      }
      baseNonce := Some(generated.value);
      return Ok(HandshakePayload(Some(publicKey), Some(generated.value)));
    }

    /** EndHandshake: sets the connection verified when the answer passes
        the check; a failure leaves the flag as it was, and nothing clears
        it. */
    method EndHandshake(res: HandshakePayload) returns (err: Option<Error>)
      modifies this
      ensures err == HandshakeCheck(baseNonce, publicKey, res)
      ensures verified == (old(verified) || err.None?)
      ensures baseNonce == old(baseNonce) && publicKey == old(publicKey)
      ensures secretKey == old(secretKey) && peerPublicKey == old(peerPublicKey)
    {
      if baseNonce.None? {
        return Some(HandshakeNoncesNotEqual);
      }
      if res.baseNonce.None? {
        return Some(NilPointer);
      }
      if res.baseNonce.value != baseNonce.value {
        return Some(HandshakeNoncesNotEqual);
      }
      if res.publicKey.None? {
        return Some(NilPointer);
      }
      if res.publicKey.value != publicKey {
        return Some(HandshakePublicKeysNotEqual);
      }
      verified := true;
      return None;
    }

    /** Verified. */
    function Verified(): (v: bool)
      reads this
      ensures v <==> verified
    {
      verified
    }

    /** EncryptPacket: always an error, which says whether the handshake
        is still to be completed. */
    function EncryptPacket(): (r: Result<seq<byte>>)
      reads this
      ensures r.Err? && (r.error == CompleteHandshakeFirst <==> !Verified())
      ensures r.error in {CompleteHandshakeFirst, NotImplemented}
    {
      if !verified then Err(CompleteHandshakeFirst) else Err(NotImplemented)
    }

    /** DecryptPacket: likewise always an error. */
    function DecryptPacket(): (r: Result<seq<byte>>)
      reads this
      ensures r.Err? && (r.error == CompleteHandshakeFirst <==> !Verified())
      ensures r.error in {CompleteHandshakeFirst, NotImplemented}
    {
      if !verified then Err(CompleteHandshakeFirst) else Err(NotImplemented)
    }
  }

  /** An answer that echoes what StartHandshake sent passes the check, and
      one that changes the nonce or the key does not. */
  lemma EchoCompletesHandshake(publicKey: Key, nonce: Nonce, other: HandshakePayload)
    ensures HandshakeCheck(Some(nonce), publicKey, HandshakePayload(Some(publicKey), Some(nonce))) == None
    ensures other != HandshakePayload(Some(publicKey), Some(nonce)) ==> HandshakeCheck(Some(nonce), publicKey, other).Some?
  {
  }
}
