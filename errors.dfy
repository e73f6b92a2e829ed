/** The error values the modelled Go code returns, and the Result and Option
    wrappers that carry them.  Go returns `(value, error)` pairs; here an
    operation returns `Ok(value)` or `Err(error)`.  A Go runtime panic that
    attacker-controlled input can trigger is given its own variant, so that
    the model says exactly which inputs crash the original. */
module Errors {

  datatype Error =
    // io.EOF: a read found no bytes left
    | EOF
    // io.ErrUnexpectedEOF: binary.Read found fewer bytes than its field needs
    | UnexpectedEOF
    // "too many nodes, the max is 4" (SendNodes marshal and unmarshal)
    | TooManyNodes
    // "bad address family: %d" (SendNodes unmarshal)
    | BadAddressFamily(family: int)
    // "unknown address family: %d" (Node unmarshal, save-file node sections)
    | UnknownAddressFamily(family: int)
    // "incorrect ping type: %d! is this a replay attack?"
    | IncorrectPingType(pingType: int)
    // "unknown packet type: %d" (DHT DecryptPacket)
    | UnknownPacketType(packetType: int)
    // ErrUnknownPacketType wrapped with the type (bootstrap UnmarshalPacket)
    | UnknownBootstrapPacketType(packetType: int)
    // "MOTD too long"
    | MOTDTooLong
    // "invalid packet length: %d, expected: %d"
    | InvalidPacketLength(actual: int, expected: int)
    // "state file must start with 4 zeroes"
    | StateMustStartWithZeroes
    // GlobalCookieError{expected, actual}
    | GlobalCookieError(expectedCookie: int, actualCookie: int)
    // InnerCookieError{expected, actual}
    | InnerCookieError(expectedInner: int, actualInner: int)
    // "invalid string size: %d > %d"
    | InvalidStringSize(strSize: int, limit: int)
    // Go runtime panic: index out of range
    | IndexOutOfRange
    // Go runtime panic: nil pointer dereference
    | NilPointer
    // "ping id already in set: %d" / "ping id not in set: %d"
    | PingIDInSet(inSetID: int)
    | PingIDNotInSet(notInSetID: int)
    // "ping id already in collection: %d" / "ping id not in collection: %d"
    | PingIDInCollection(inCollectionID: int)
    | PingIDNotInCollection(notInCollectionID: int)
    // relay handshake errors
    | HandshakeNoncesNotEqual
    | HandshakePublicKeysNotEqual
    | CompleteHandshakeFirst
    | NotImplemented
    // "bad packet: %d unexpected extra bytes" (AssertReaderEOF)
    | UnexpectedExtraBytes(count: int)
    // an error reported by a capability outside the model (crypto, randomness)
    | External(code: int)

  datatype Result<T> = Ok(value: T) | Err(error: Error)

  datatype Option<T> = None | Some(value: T)
}
