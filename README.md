# tox4go core, modelled in Dafny

This project models the byte-level core of tox4go, a Go implementation of
parts of the Tox protocol, and proves properties of that model:

- the DHT wire codec: the encrypted envelope, the Node record, and the GetNodes,
  SendNodes, PingRequest and PingResponse payloads, all big-endian
  (`dht_packets.dfy`);
- the Kademlia XOR distance and `Closest`, in both copies
  (`dht_key.dfy`, `math_distance.dfy`);
- the identity envelope that seals a packet for a peer and opens one by its
  type tag, in both revisions (`dht_ident.dfy`, `dht_dht.dfy`);
- the ping tracker: the ping record, the `Set` with its map and time-ordered
  list, and the older `Collection` (`ping.dfy`, `ping_set.dfy`,
  `ping_collection.dfy`);
- the bootstrap info packets: the raw type·payload frame, the
  request/response classification and the MOTD limit (`bootstrap_packets.dfy`);
- the Tox save file: little-endian section headers, the nested DHT
  section, fixed-width strings and 2216-byte friend records
  (`state_file.dfy`, `state_strings.dfy`, `state_friend.dfy`,
  `state_records.dfy`);
- the relay handshake state machine (`relay_connection.dfy`);
- `AssertReaderEOF` (`util.dfy`).

Go's `bytes.Reader` is modelled as a value: a byte sequence and an offset
(`go_reader.dfy`). A `Read` with at least one byte left is a short read
without error, and zero-fills the rest of its buffer. A `Read` with no byte
left is EOF, even into an empty buffer. `binary.Read` needs its whole field:
EOF when nothing is left, UnexpectedEOF when only part of it is. `Seek` may move
past the end. Most accept/reject sets below follow from these rules.

Each `UnmarshalBinary` is a method that walks the reader the way the Go code
does. Its contract equates the result with a `Parse` function on the raw
bytes. Lemmas about that function state which inputs are accepted, what they
decode to, and the round trips with the marshal side. Each loop the Go code
runs is a method with a loop proved against such a function:
`SendNodesPacket.MarshalBinary`, `sectionFriends`, `sectionNodes`,
`sliceIsZero`, `DistanceTo`, `Closest` and `clearExpired`. The objects whose
fields Go updates in place are classes: `Set`, `Collection` and `Connection`.
Crypto, the clock and random generators enter as parameters:
- the crypto operations are function values in a `Crypto` datatype;
- key-pair, nonce and ping-id generation enter as their `Result`s;
- the clock is an integer count of nanoseconds passed to each operation.

Go runtime panics that input can trigger are error variants:
- `IndexOutOfRange`: a Status section with an empty body;
- `NilPointer`: marshalling a state whose keys are nil, or a handshake answer
  with a nil field.

## Model

| member | source | states |
|---|---|---|
| DhtPackets.ID | dht/packets.go:108-111 | Each payload kind's ID is one of the four packet tags 0, 1, 2, 4 |
| DhtPackets.IDsAreDistinct | dht/packets.go:15-20 | Two payloads have the same ID exactly when they are of the same kind |
| DhtPackets.Net | dht/packets.go:405-418 | Net is defined exactly for the families 2, 10, 130 and 138. It names udp or tcp and 4 or 6 to match the family; any other type is the panic case |
| DhtPackets.MarshalNode | dht/packets.go:369-392 | A node's record is 1 + IP length + 2 + 32 bytes and starts with its type; MarshalNodeFields gives the rest of the layout and NodeRoundTrip the inverse |
| DhtPackets.MarshalNodeFields | dht/packets.go:369-392 | A marshalled node is the type byte, then the IP as stored (no check of its length or of the type), then uint16(port) big-endian, then the 32-byte key |
| DhtPackets.UnmarshalNode | dht/packets.go:330-366 | Node.UnmarshalBinary's reader walk yields exactly ParseNode's result |
| DhtPackets.ParseNodeAccepts | dht/packets.go:340-366 | A node decodes iff the family is 2/130 (4-byte IP) or 10/138 (16-byte IP) and the IP, the 2-byte port and at least one key byte are present. Any other family is rejected with its value. A decoded node is well formed |
| DhtPackets.ReadPadsKey | dht/packets.go:363-365 | A key Read with at least one byte left succeeds and zero-fills what the input lacks |
| DhtPackets.NodeRoundTrip | dht/packets.go:330-392 | unmarshal(marshal(n)) == n for every node with a valid family, an IP of that family's length and 0 <= port < 65536 |
| DhtPackets.ParseNodeThenMarshal | dht/packets.go:330-392 | Re-marshalling a decoded node gives back its record as read: the input's first record-size bytes, zero-filled |
| DhtPackets.UnmarshalGetNodes | dht/packets.go:96-106 | GetNodes decoding succeeds iff at least 40 bytes are present |
| DhtPackets.GetNodesRoundTrip | dht/packets.go:79-106 | GetNodes marshals to 40 bytes, and decodes back to the packet whatever bytes follow |
| DhtPackets.ParseGetNodesThenMarshal | dht/packets.go:79-106 | A decoded GetNodes re-marshals to the first 40 input bytes; later bytes are ignored |
| DhtPackets.UnmarshalEncrypted | dht/packets.go:141-164 | The envelope decodes iff at least one payload byte follows the 57-byte header |
| DhtPackets.EncryptedRoundTrip | dht/packets.go:114-164 | An envelope round-trips iff its payload is non-empty; an empty payload reads back as EOF |
| DhtPackets.ParseEncryptedThenMarshal | dht/packets.go:114-164 | A decoded envelope re-marshals to the whole input: type, sender key, nonce, then the rest as payload |
| DhtPackets.MarshalNodesCons | dht/packets.go:179-189 | The node records of a list are the first node's record followed by the rest's, in list order |
| DhtPackets.MarshalSendNodes | dht/packets.go:167-197 | SendNodes marshalling fails with more than 4 nodes; otherwise it is the count byte, the node records in order, then the ping id |
| DhtPackets.SendNodesLayout | dht/packets.go:167-197 | A marshalled SendNodes is the count byte, the node records, then the big-endian ping id, then whatever follows |
| DhtPackets.ParseNodeRecords | dht/packets.go:213-245 | Reading `count` records in sequence yields exactly `count` nodes and stays within the input |
| DhtPackets.ParseNodeRecord | dht/packets.go:215-244 | A node record read in the SendNodes loop succeeds only for a valid family, and moves past the record or to the end of a short input |
| DhtPackets.ReadNodeRecord | dht/packets.go:215-244 | One pass of the SendNodes loop yields exactly ParseNodeRecord's node and offset, or its error |
| DhtPackets.ReadNodeRecords | dht/packets.go:213-245 | The SendNodes loop yields exactly the `count` records ParseNodeRecords reads in sequence, or the first error |
| DhtPackets.UnmarshalSendNodes | dht/packets.go:200-248 | SendNodesPacket.UnmarshalBinary yields exactly ParseSendNodes's result |
| DhtPackets.SendNodesTail | dht/packets.go:200-248 | Once the nodes are read, decoding ends with the 8-byte ping id that follows them. It fails with EOF at the end of input and UnexpectedEOF for a partial id |
| DhtPackets.ReadMarshalledNode | dht/packets.go:215-244 | A well-formed node's record, wherever it lies, is read back as that node |
| DhtPackets.ReadNodeRecordsAt | dht/packets.go:213-245 | Well-formed nodes laid out back to back are read back in order |
| DhtPackets.SendNodesRoundTrip | dht/packets.go:167-248 | Up to 4 well-formed nodes and a ping id decode back from their marshalling, whatever bytes follow |
| DhtPackets.ParseNodeRecordsComplete | dht/packets.go:213-245 | Records read in sequence that end before the input does are exactly the marshalling of the nodes read, all well formed |
| DhtPackets.ParseSendNodesThenMarshal | dht/packets.go:167-248 | A decoded SendNodes has at most 4 well-formed nodes and re-marshals to a prefix of the input |
| DhtPackets.UnmarshalPingID | dht/packets.go:273-285 | The ping id is read iff the input has 9 bytes and its first byte is the expected tag |
| DhtPackets.UnmarshalPingRequest | dht/packets.go:310-322 | PingRequest decoding yields exactly ParsePingRequest's result (tag 0) |
| DhtPackets.UnmarshalPingResponse | dht/packets.go:273-285 | PingResponse decoding yields exactly ParsePingResponse's result (tag 1) |
| DhtPackets.PingRoundTrips | dht/packets.go:256-322 | Both pings round-trip whatever bytes follow. Each kind refuses the other's marshalling, reporting the wrong tag |
| DhtPackets.ParsePingThenMarshal | dht/packets.go:256-322 | A decoded ping re-marshals to the first 9 input bytes |
| DhtPackets.DecimalRoundTrip | dht/packets.go:435 | The `%d` digits of a number denote that number |
| DhtPackets.PacketTypeString | dht/packets.go:420-436 | The label is the type's name followed by its number in decimal digits in parentheses; those digits denote the type |
| DhtPackets.PacketTypeStringInjective | dht/packets.go:420-436 | Different packet types get different labels; the name is UNKNOWN exactly for types other than 0, 1, 2, 4 |
| DhtKey.XorFacts | dht/key.go:36 | Byte XOR is commutative, zero on equal bytes, zero only on equal bytes, and cancellative |
| DhtKey.DistanceTo | dht/key.go:32-40 | The loop fills the distance with the byte-wise XOR of the two keys |
| DhtKey.Closest | dht/key.go:13-30 | The loop returns ClosestSpec's key, which is always one of the two arguments |
| DhtKey.LexLessTrichotomy | dht/key.go:17-25 | For equal-length distances the first differing byte decides one way exactly, or the distances are equal |
| DhtKey.LexLessIsNumericLess | dht/key.go:17-25 | Smaller at the first differing byte is the same as smaller as a big-endian number |
| DhtKey.DistanceSymmetric | dht/key.go:35-37 | The distance from a to b equals the distance from b to a |
| DhtKey.DistanceZeroIffEqual | dht/key.go:35-37 | A key's distance to itself is all zeros, and a distance is all zeros only for equal keys |
| DhtKey.DistanceInjective | dht/key.go:35-37 | Two keys at the same distance from a target are equal |
| DhtKey.ClosestIsNumericallyClosest | dht/key.go:13-30 | Closest returns the key whose distance is the smaller big-endian number. Equal distances, e.g. pk1 == pk2, return pk1 |
| DhtKey.ClosestSwap | dht/key.go:17-25 | For two different keys, swapping them gives the same winner |
| DhtKey.ClosestIsNoFarther | dht/key.go:13-30 | The key returned is no farther from the target than either argument |
| MathDistance.DistanceBetween | math/distance.go:5-13 | The older copy also yields the byte-wise XOR over all 32 bytes, the same as DistanceTo |
| MathDistance.Closest | math/distance.go:15-33 | The older Closest returns the key of smaller big-endian distance, publicKey1 on ties, and agrees with PublicKey.Closest for every input |
| DhtIdent.NewIdent | dht/ident.go:17-29 | The identity holds the generated key pair; a generator error is returned with no identity |
| DhtIdent.MarshalBinary | dht/packets.go:79-307 | Packet marshalling dispatches on the kind. Only SendNodes can fail, with more than 4 nodes |
| DhtIdent.Unmarshal | dht/ident.go:58-80 | Decoding under a known tag yields a packet of the kind that tag names |
| DhtIdent.UnmarshalBinary | dht/ident.go:58-80 | The UnmarshalBinary of the kind the tag selects yields exactly Unmarshal's result |
| DhtIdent.PacketRoundTrip | dht/ident.go:77-80 | Every packet whose nodes are well formed and at most 4 marshals and decodes back under its own ID |
| DhtIdent.EncryptPacket | dht/ident.go:32-52 | The envelope is tagged with packet.ID() and the identity's own public key. A marshal error is returned unchanged |
| DhtIdent.DecryptPacket | dht/ident.go:55-83 | An unknown tag is rejected with its value. A result is of the kind the tag names |
| DhtIdent.ErrorsPrecedeCrypto | dht/ident.go:32-69 | A marshal error and an unknown tag are reported the same whatever the crypto does, so before any key derivation or encryption |
| DhtIdent.SealContents | dht/ident.go:42-51 | The envelope's payload and nonce are exactly Encrypt(marshal(packet), PrecomputeKey(peer key, own secret key)); with an Encrypt error there is no envelope |
| DhtIdent.SealThenOpen | dht/ident.go:32-83 | What a sender seals for a receiver, the receiver opens to the same packet. This needs both ends to derive the same shared key and Decrypt to invert Encrypt |
| Dht.NewDHT | dht/dht.go:17-29 | The DHT holds the generated key pair, or the generator's error is returned |
| Dht.EncryptPacket | dht/dht.go:32-52 | The envelope is tagged with packet.ID() and this DHT's key. Its payload is Encrypt under PrecomputeKey(peer, own secret). Marshal errors propagate |
| Dht.DecryptPacket | dht/dht.go:55-83 | Unknown tags are rejected before any crypto. A result matches the tag, and the payload was opened under the key shared with the envelope's sender |
| Ping.New | dht/ping/ping.go:22-33 | The ping gets the passed key, the generated id and the clock reading; an id-generation error yields no ping |
| Ping.Expired | dht/ping/ping.go:35-37 | A ping has expired iff strictly more than `timeout` nanoseconds have passed since its creation |
| Ping.ID | dht/ping/ping.go:39-41 | ID returns the ping's id |
| Ping.NewThenID | dht/ping/ping.go:22-41 | ID returns the id fixed at creation, and a new ping has not expired, even under a zero timeout |
| Ping.TenSecondExpiry | dht/ping/set_test.go:39-62 | With a 10 s timeout a ping is alive 0 s and 8 s after creation and expired at 11 s |
| Ping.ExpiredMonotone | dht/ping/ping.go:35-37 | Expiry (strictly more than the timeout since creation) persists as the clock advances, and holds for every older ping |
| PingSet.Keys | dht/ping/set.go:16-19 | The keys of a list are the (id, key bytes) of its pings, in order |
| PingSet.IndexOfKey | dht/ping/set.go:66-67 | A key present in the list names a position holding a ping with that key |
| PingSet.Set.constructor | dht/ping/set.go:29-35 | A new set is empty, valid, holds the timeout and has never reallocated |
| PingSet.Set.Size | dht/ping/set.go:37-39 | Size is the number of map entries, which always equals the list length |
| PingSet.Set.delete | dht/ping/set.go:96-99 | The ping leaves both the map and the list, which stay in agreement |
| PingSet.Set.clearExpired | dht/ping/set.go:76-94 | The list loses exactly its longest prefix of expired pings. The map still holds exactly the list's pings. lastRealloc becomes now only when more than 1 s has passed since it was last set |
| PingSet.Set.Add | dht/ping/set.go:41-57 | After the sweep, a generator error or a (key, id) already present is refused and the swept list is kept; otherwise the new ping is appended and returned |
| PingSet.Set.Pop | dht/ping/set.go:63-74 | After the sweep, a hit removes that ping from map and list and returns it; a miss errors and changes nothing else |
| PingSet.MapOfLookup | dht/ping/set.go:49-56 | With distinct keys, every ping of the list is in the map under its own key |
| PingSet.MapOfKeys | dht/ping/set.go:16-19 | The map's keys are exactly the keys of the list |
| PingSet.MapOfSize | dht/ping/set.go:37-39 | With distinct keys, the map has as many entries as the list |
| PingSet.DistinctKeysAppend | dht/ping/set.go:49-56 | Appending a ping with a new key keeps the keys distinct |
| PingSet.DistinctKeysRemove | dht/ping/set.go:96-99 | Removing a ping keeps the keys distinct, and its key is then absent |
| PingSet.MapOfRemove | dht/ping/set.go:96-99 | Removing a ping from the list removes exactly its key from the map |
| PingSet.DropExpiredIsExpiredPrefix | dht/ping/set.go:76-86 | The sweep keeps a suffix: every ping removed has expired, and the first ping kept has not |
| PingSet.SweepRemovesAllExpired | dht/ping/set.go:76-86 | On a list in creation order, no expired ping survives the sweep |
| PingSet.AddKeepsOrder | dht/ping/set.go:55 | With a clock that never goes backwards, sweeping and appending keeps the list in creation order |
| PingSet.PopTwiceMisses | dht/ping/set_test.go:78-86 | After a Pop, the same (key, id) is no longer present, so a second Pop misses |
| PingSet.PopOfExpiredMisses | dht/ping/set_test.go:123-127 | An expired ping is swept before the lookup, leaving a set of one ping empty |
| PingCollection.ExpiredPrefix | dht/ping/collection.go:78-86 | The leading run of expired pings ends at the first ping that has not expired |
| PingCollection.Collection.constructor | dht/ping/collection.go:21-26 | A new collection is empty and holds the timeout; no ping has been added or removed |
| PingCollection.Collection.ClearExpired | dht/ping/collection.go:75-90 | The keys of the leading expired pings leave the map. The slice becomes pings[i+1:] at the first live ping i, or is kept whole when all have expired. The pings of the deleted keys count as removed. Every map entry remains a ping that was added and not removed since, stored under its own key |
| PingCollection.Collection.Add | dht/ping/collection.go:28-39 | After the sweep, a (key, id) already in the map is refused with the swept map and slice kept. Otherwise the ping enters the map and the back of the slice and counts as added and live |
| PingCollection.Collection.AddNew | dht/ping/collection.go:41-52 | A generator error leaves the collection untouched. Otherwise the ping made from the id and the clock gets Add's full outcome. A duplicate is refused with the swept map and slice kept. A new ping is put in the swept map and appended to the trimmed slice |
| PingCollection.Collection.Pop | dht/ping/collection.go:59-73 | After the sweep, a hit deletes the key from the map only, leaving the slice, and returns the ping, which counts as removed; a miss errors |
| PingCollection.TrimDropsFirstLivePing | dht/ping/collection.go:78-89 | The first live ping leaves the slice while its key stays in the map (the off-by-one, as written) |
| PingCollection.AllExpiredKeepsSlice | dht/ping/collection.go:78-89 | When every ping has expired the slice is kept whole while all their keys leave the map |
| PingCollection.SweepDeletesLeadingExpired | dht/ping/collection.go:78-86 | A key leaves the map iff it is the key of one of the leading expired pings |
| BootstrapPackets.ID | bootstrap/packets.go:124-157 | Both info packets have ID 0xF0 |
| BootstrapPackets.MarshalRaw | bootstrap/packets.go:49-63 | The frame is the type byte followed by the payload; UnmarshalRaw reads it back |
| BootstrapPackets.UnmarshalRaw | bootstrap/packets.go:66-77 | A raw packet decodes iff there are at least 2 bytes; a lone type byte gives EOF |
| BootstrapPackets.RawRoundTrip | bootstrap/packets.go:49-77 | A raw packet round-trips iff its payload is non-empty |
| BootstrapPackets.ParseRawThenMarshal | bootstrap/packets.go:49-77 | A decoded raw packet re-marshals to the whole input |
| BootstrapPackets.TrimProperties | bootstrap/packets.go:120 | Trimming keeps a contiguous part with no NUL at either end, and cuts away only NULs |
| BootstrapPackets.TrimKeeps | bootstrap/packets.go:120 | A MOTD with no NUL at either end is kept as it is |
| BootstrapPackets.TrimIdempotent | bootstrap/packets.go:120 | Trimming twice is trimming once |
| BootstrapPackets.MarshalInfoResponse | bootstrap/packets.go:80-99 | A response marshals iff its MOTD has at most 256 bytes, else MOTDTooLong. The output is the big-endian version, read back as the version, then the MOTD |
| BootstrapPackets.UnmarshalInfoResponse | bootstrap/packets.go:102-122 | A response decodes iff it has the 4 version bytes and 1 to 256 MOTD bytes |
| BootstrapPackets.MarshalInfoRequest | bootstrap/packets.go:130-140 | A request is 77 zero bytes, the shape UnmarshalPacket classifies as a request |
| BootstrapPackets.ParseInfoRequest | bootstrap/packets.go:143-152 | A request decodes iff it is exactly 77 bytes, of any content; the error reports both lengths |
| BootstrapPackets.SliceIsZero | bootstrap/packets.go:203-210 | True iff every byte is zero |
| BootstrapPackets.UnmarshalPacket | bootstrap/packets.go:168-189 | Other tags fail with the unknown-type error. Under 0xF0 the result is a request iff the payload is 77 zero bytes |
| BootstrapPackets.UnmarshalBinary | bootstrap/packets.go:159-166 | Fewer than 2 bytes give EOF. A type other than 0xF0 is rejected with its value. The result is a request iff the input is 0xF0 followed by 77 zero bytes |
| BootstrapPackets.MarshalPacket | bootstrap/packets.go:191-201 | The frame's type is the packet's ID. A response fails iff its MOTD exceeds 256 bytes |
| BootstrapPackets.PacketRoundTrip | bootstrap/packets.go:49-201 | A request, and a response whose MOTD is 1 to 256 bytes with no NUL at either end, survive MarshalPacket, frame marshalling and UnmarshalBinary |
| BootstrapPackets.ResponsePayloadRoundTrip | bootstrap/packets.go:80-122 | A sendable MOTD and version are read back from the response payload |
| BootstrapPackets.EmptyMOTDIsUnreadable | bootstrap/packets.go:102-122 | A response with an empty MOTD marshals to the type byte and the 4 version bytes, but cannot be read back. After the version, the Read into the empty MOTD buffer meets the end of input and gives EOF |
| StateFile.WriteSectionFields | state/state.go:421-439 | A written section is the body length (mod 2^32), the type and the cookie, each little-endian, then the body |
| StateFile.ReadSection | state/state.go:441-472 | A successful read stays in the input and moves past at least the length and the type |
| StateFile.ReadSectionEnd | state/state.go:448-455 | Type End is returned right after the type field, without reading the cookie |
| StateFile.ReadSectionWrongCookie | state/state.go:457-463 | A wrong cookie gives InnerCookieError with the expected and the actual value |
| StateFile.ReadSectionBody | state/state.go:465-471 | The body is the stated length, zero-filled where the input ends early. No byte after the header gives EOF, even for length 0 |
| StateFile.WrittenSectionAt | state/state.go:421-439 | A section written anywhere in the input holds its length, type, cookie and body at the expected offsets |
| StateFile.ReadWrittenSection | state/state.go:421-472 | A written section reads back as written, unless its body is empty and nothing follows, which gives EOF |
| StateFile.ReadWrittenEnd | state/state.go:441-455 | A written End section ends the read after its type field |
| StateFile.EncodeNospamKeys | state/state.go:339-358 | The keys section is 68 bytes: nospam, public key, secret key |
| StateFile.UnmarshalNospamKeys | state/state.go:319-336 | The nospam section's reader walk yields exactly ParseNospamKeys's result |
| StateFile.NospamKeysRoundTrip | state/state.go:319-358 | Nospam (LE uint32), public key and secret key read back as written |
| StateFile.MarshalNodeSection | state/state.go:403-419 | The node section is the node records back to back, in order, with no count |
| StateFile.ReadNodeEntryMeaning | state/state.go:364-397 | A node entry with an unknown family is rejected. A family byte at the end of input is EOF. Otherwise the entry is decoded with what the input lacks zero-filled |
| StateFile.ReadNodeEntryLoops | state/state.go:364-397 | Every successful node entry read moves forward, so the loop ends |
| StateFile.UnmarshalNodeSection | state/state.go:361-400 | The node loop yields exactly ParseNodeSection's records, in order |
| StateFile.TruncatedLastNode | state/state.go:384-394 | A truncated final node is zero-filled and accepted |
| StateFile.NodeSectionRoundTrip | state/state.go:361-419 | Well-formed nodes read back in order from their node section |
| StateFile.UnmarshalDht | state/state.go:282-311 | The DHT case's reader walk and inner loop yield exactly ParseDht's result |
| StateFile.DhtCookie | state/state.go:286-291 | The DHT body must start with LE cookie 0x159000D; another cookie is reported with its value |
| StateFile.DhtRoundTrip | state/state.go:162-179 | The DHT body as written reads back to its nodes when there is at least one. With none, the empty node sub-section last in the body reads as EOF |
| StateFile.UnmarshalState | state/state.go:212-316 | State.UnmarshalBinary's loop yields exactly ParseState's result |
| StateFile.MarshalState | state/state.go:98-209 | Nil keys give the nil-pointer panic case; otherwise the result is the state's encoding, EncodeState |
| StateFile.EncodeStateLayout | state/state.go:98-209 | The encoding is the 4 zero bytes and the global cookie, then the sections with the inner cookie, in order: keys, friends, path nodes, TCP relays, DHT (its own cookie and a nodes sub-section), name, status message, status, End |
| StateFile.ParseSectionsNeedsEnd | state/state.go:233-239 | The section loop succeeds only if an End header is reached |
| StateFile.StateHeaderChecks | state/state.go:212-239 | Success needs 4 zero bytes, the LE cookie 0x15ED1B1F and an End header. Bad zeroes and a bad cookie give their own errors |
| StateFile.SectionStep | state/state.go:233-314 | One section other than End is applied and the loop continues after it |
| StateFile.ApplySectionCases | state/state.go:241-314 | Unknown types are skipped. A repeated name or status message overwrites the earlier one. Status takes the body's first byte and panics on an empty body. Only the DHT section changes the nodes |
| StateFile.ReadWrittenSectionAt | state/state.go:421-472 | A written section followed by at least one more byte reads back exactly |
| StateFile.ParseReadSections | state/state.go:233-239 | Sections read in sequence are applied in order |
| StateFile.ReadWrittenSections | state/state.go:441-472 | Sections written back to back, with more input after them, read back in order |
| StateFile.KeysSectionApplies | state/state.go:242-251 | The written keys section sets the nospam and both keys |
| StateFile.FriendsSectionApplies | state/state.go:252-259 | The written friends section sets the friends |
| StateFile.NodeSectionsApply | state/state.go:266-281 | A node section sets the TCP relays or the path nodes |
| StateFile.DhtSectionApplies | state/state.go:282-311 | The written DHT section sets the nodes, or gives EOF when there are none |
| StateFile.ApplyStateSections | state/state.go:241-314 | Applying the written sections in order rebuilds the state, or gives EOF without DHT nodes |
| StateFile.WrittenEndEndsLoop | state/state.go:237-239 | The End section written last ends the loop with the state built so far |
| StateFile.ParseStateHeader | state/state.go:213-231 | The written header passes the zero and cookie checks |
| StateFile.EncodedStateParts | state/state.go:98-209 | The marshalled state is the 8-byte header, the 8 sections, then End |
| StateFile.StateSectionsWritable | state/state.go:98-209 | No written section is End, and every body fits its uint32 length |
| StateFile.StateRoundTrip | state/state.go:98-316 | Unmarshalling a marshalled state gives it back iff it has at least one DHT node, otherwise EOF. This holds for keys set, friends whose strings fit, well-formed nodes and sections under 2^32 bytes |
| StateStrings.WriteStringWithSize | state/state.go:474-495 | The field is `size` bytes of the string (zero-padded or cut short), then zeros, then the full length mod 2^16 big-endian |
| StateStrings.ReadWholeField | state/state.go:497-521 | A whole field reads iff its stored length is at most `size`; the padding is skipped unchecked |
| StateStrings.ReadCutShortField | state/state.go:497-518 | A field cut short by the end of input always fails |
| StateStrings.WrittenStringAt | state/state.go:474-495 | A written field holds the string's length and, when it fits, the string |
| StateStrings.ReadWrittenString | state/state.go:474-521 | A written field reads back as the string when it fits, and fails with its length when it does not |
| StateStrings.StringRoundTrip | state/state.go:474-521 | A string round-trips through its field, wherever the field lies, iff its length is at most `size` |
| StateStrings.LongStringIsUnreadable | state/state.go:474-521 | A string longer than its field is cut short but records its full length, so it cannot be read back |
| StateRecords.ParseRecordsStep | state/friend.go:31-86 | One pass of a records loop appends the record read and continues after it, or stops at its error |
| StateRecords.ReadRecords | state/friend.go:28-89 | The loop reads records while bytes remain and yields exactly ParseRecords's records in order, or the first error |
| StateFriend.EncodeFriend | state/friend.go:95-141 | A friend record is 2216 bytes |
| StateFriend.MarshalFriends | state/friend.go:92-144 | The marshal loop writes the friend records back to back in list order |
| StateFriend.EncodeFriendLayout | state/friend.go:95-141 | The record layout: status, key, request message (1024 + 1 pad + length), name (128 + length), status message (1007 + 1 pad + length), user status, 3 padding bytes, LE nospam, BE last seen |
| StateFriend.ReadWholeFriend | state/friend.go:31-86 | A pass over a whole record yields the decoded friend iff every stored string length fits its field |
| StateFriend.ReadFittingFriend | state/friend.go:31-86 | A whole record whose lengths fit decodes field by field |
| StateFriend.ReadCutShortFriend | state/friend.go:31-86 | A record cut short by the end of input fails |
| StateFriend.ReadFriendAdvances | state/friend.go:31-86 | A successful pass moves exactly one 2216-byte record forward |
| StateFriend.ReadFriendLoops | state/friend.go:31-86 | Every successful record read moves forward, so the loop ends |
| StateFriend.UnmarshalFriends | state/friend.go:28-89 | The unmarshal loop yields exactly ParseFriends's result |
| StateFriend.DecodeEncodeFriend | state/friend.go:28-144 | A written friend whose strings fit decodes back to itself |
| StateFriend.ReadEncodedFriend | state/friend.go:28-144 | A written friend whose strings fit is read back by one pass |
| StateFriend.FriendsRoundTrip | state/friend.go:28-144 | Friends round-trip when every request message is at most 1024, name at most 128 and status message at most 1007 bytes |
| StateFriend.ParseFriendsMeaning | state/friend.go:28-89 | Unmarshal succeeds iff the input is whole records whose stored lengths fit. The result is those records decoded in order |
| StateFriend.PaddingIgnored | state/friend.go:70-74 | Records that differ only in padding bytes read alike |
| StateFriend.PaddingIgnoredDecode | state/friend.go:46-74 | The padding bytes do not affect the stored lengths or the decoded friend. They are the byte after the request message and the byte after the status message, skipped by the Seek in readStringWithSize (state/state.go:504-510), and the 3 bytes after the user status |
| RelayConnection.HandshakeCheck | relay/connection.go:49-56 | The check passes iff a handshake was started and the answer echoes its nonce and the connection's own key |
| RelayConnection.Connection.constructor | relay/connection.go:25-31 | A connection starts unverified with no base nonce |
| RelayConnection.Connection.NewConnection | relay/connection.go:19-34 | The connection holds the generated key pair and the peer key, unverified, with no base nonce; a generator error yields none |
| RelayConnection.Connection.StartHandshake | relay/connection.go:36-47 | The generated nonce is stored and returned with the connection's own key; a generator error changes nothing |
| RelayConnection.Connection.EndHandshake | relay/connection.go:49-60 | The result is HandshakeCheck's. Success sets verified, failure leaves it, and nothing clears it |
| RelayConnection.Connection.Verified | relay/connection.go:62-64 | True iff the connection is verified. Only a successful EndHandshake sets that, and nothing clears it (EndHandshake's contract) |
| RelayConnection.Connection.EncryptPacket | relay/connection.go:67-73 | Always an error: "complete a handshake first" iff unverified, else "not implemented" |
| RelayConnection.Connection.DecryptPacket | relay/connection.go:76-82 | Always an error: "complete a handshake first" iff unverified, else "not implemented" |
| RelayConnection.EchoCompletesHandshake | relay/connection.go:49-60 | An answer echoing what StartHandshake sent passes, and any other answer fails |
| Util.AssertReaderEOF | internal/util/util.go:8-13 | No error iff no byte is left unread; otherwise the error reports how many are |
| Util.AssertReaderEOFOnlyCountsBytes | internal/util/util.go:8-13 | The outcome depends only on the count of bytes left, and agrees with a Read returning EOF |

## Left out

- The crypto package is not part of this model. PrecomputeKey, Encrypt and Decrypt are function values; GenerateKeyPair, GenerateNonce and GeneratePingID enter as their results.
- The clock is a nanosecond integer passed to each operation, not a wall clock.
- transport/, toxstatus/ and cmd/ are not part of this model. They are sockets, HTTP, process wiring, CLI glue and a cgo wrapper.
- Node.Addr and PublicKey.String: net.Addr construction and hex formatting are library calls.
- The message texts of state/errors.go and of the `fmt.Errorf` calls are not modelled. Errors are variants that carry the values they report.
- Aliasing of Go pointers is not modelled: keys, nodes and friends are values. The nil-pointer panics that matter are error variants.
- State.UnmarshalBinary, on an error, leaves the receiver partly updated. ParseState returns only the error, not the partial state.
- sectionNodes.UnmarshalBinary appends to the receiver's existing list. The model starts from an empty list, as the callers in state/state.go do.
- PingSet.Set.clearExpired: the `maps.Clone` reallocation is modelled as a copy with the same contents. Its memory effect is not modelled.
- The `container/list` element pointers of the ping set (`Ping.e`) are not modelled. The list is a sequence and delete names a position.
- Int widths: Go's `int`, `uint16`, `uint32` and `uint64` fields are bounded subset types. The wrap-arounds that reach the wire are written out: `uint16(Port)`, `uint32(len(body))` and `uint16(len(str))`.
- StateFile.StateRoundTrip and StateFile.ApplyStateSections: the round trip of a state with no DHT nodes is stated as the EOF the code gives, not as a round trip.
