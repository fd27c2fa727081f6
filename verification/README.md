# ruwa call stack: a verified model

ruwa answers and places WhatsApp 1:1 voice calls. This project models the parts
of it that have an exact specification and proves what they are for:

- the media plane of `src/call.rs`: rollover counters, SRTP packet crypto, RTP
  framing, the sequencer, and the send and receive arms of the media loop, over
  whole runs against a network that drops, repeats, reorders and invents packets;
- STUN: attributes, MESSAGE-INTEGRITY, FINGERPRINT and its CRC-32, the error-code
  scan, and the protobuf bytes of the stream descriptors;
- signalling: building and parsing `<offer>`, the `<relay>` block, and the choice
  of the relay endpoint;
- three side loops: PCM reframing (`src/api.rs`), the Ogg page walk and
  percent-encoding (`src/media.rs`), and history paging (`mcp/src/backfill.ts`).

AES, HMAC-SHA1 and the SSRC derivation are arbitrary functions (`Srtp.Crypto`,
`ssrcOf`). Bytes are integers below 256 and bit tests are written as division
and remainder. Machine widths are explicit: sequence numbers, counters and
timestamps wrap where the code wraps them. Objects the code updates in place are
classes whose methods are tied to functions on values; the run theorems are
about those functions.

The one assumption about the 4-byte tag is a hypothesis on the datagrams of a run
(`Receiver.Authentic`): a datagram's tag verifies only if it was sent, and only
under the counter it was sent with. `Receiver.AuthenticityIsConsistent` shows that
there are functions in place of HMAC for which it holds, whatever frames are sent and
whatever datagrams are invented. Nothing is assumed about tags in general.

Whatever is read or written is also stated in terms of the bytes themselves, beside
the functions that do it: the packets on the wire and the datagrams heard (`Wire`),
the fields of STUN messages, the texts of addresses, the nodes of stanzas, and the
CRC as a remainder of polynomials.

## What came out

- What is heard is decided by the delivery schedule alone, the list of indices the
  datagrams were sent at (`Receiver.ReceiverIsExact`): an index is taken if and only
  if it lies in a window of 2^15 around the highest one taken (with one of the two
  ties), and the receiver's counter and last sequence number always spell that one.
  While packets arrive within 2^15 of the highest index delivered, none is lost
  (`Receiver.WindowedRunHearsAll`). The first index must be below 2^16, so a receiver
  that misses the first 65535 packets stays deaf (`Receiver.LateReceiverStaysDeaf`).
- Keystream is never reused in 2^48 packets of at most 2^16 AES blocks, and is
  reused by packet 2^48 + k.
- The sequencer's guard takes a priming frame for neither speech nor, as such,
  comfort noise. Under the MLow profile the second one clears the speech latch all
  the same: its first byte 0x90 also reads as comfort noise, so the next speech frame
  is marked again (`Rtp.PrimingFrameReopensSpeech`).
- After the media loop is gone one inbound message drains one frame only, so the
  sample buffer can stay above a frame (`Pcm.BufferAfterMessageIff`,
  `Pcm.BufferStaysFull`).
- `findOldestTimestamp` is right up to 200,000 messages, and with distinct
  timestamps exactly up to there.
- A deep backfill counts a message between its end and its start exactly if it was
  stored by the query whose page took the run past it (`Completeness.CountedIffThere`).
  Two kinds are missed for good, with the start reported as reached: a message that
  shares its timestamp with the last one of a page but did not fit the page
  (`Completeness.TiesAreSkipped`), and one that arrives above what the run has reached
  (`Completeness.LateArrivalsAreSkipped`). Without ties, and with history arriving
  newest first, nothing is missed (`Completeness.InOrderMissesNothing`).
- The receiver keeps no list of packets it has heard: a datagram the network repeats is
  heard again while it is within the window (`Receiver.RepeatIsHeardIff`).

## Model

| member | source | states |
|---|---|---|
| Rollover.AdvanceExactIff | src/call.rs:251-264 | from an exact tracker, a gap below 2^16 leaves it exact if and only if it is at most 32767 or does not wrap |
| Rollover.AdvanceTracksRun | src/call.rs:251-264 | every index sequence that starts below 2^16 and grows by at most 32767 a step is stamped with its true counters |
| Rollover.RocTracker.AdvanceTo | src/call.rs:251-264 | the in-place tracker is the step function of the run lemmas |
| Rollover.EstimateExactIff | src/call.rs:281-296 | the guess equals the sender's counter for exactly the indices in the window, modulo 2^48, which tie goes which way included |
| Rollover.EstimateMinimises | src/call.rs:281-296 | of all 2^32 counters the guess is a nearest one modulo 2^48 and a neighbour of ROC (RFC 3711, section 3.3.1) |
| Rollover.CommitTakesMax | src/call.rs:300-315 | committing a right guess moves the index to the larger of the two, if and only if they are less than 2^47 apart |
| Rollover.RecvRocTracker.CommitRoc | src/call.rs:300-315 | the in-place commit is that function |
| Srtp.IvMatchesRfc3711 | src/call.rs:148-169 | the IV, read as an integer, is the formula of RFC 3711 section 4.1.1 for any salt, SSRC, counter and sequence number |
| Srtp.CounterBlockInjective | src/call.rs:148-179 | two counter blocks within 2^16 of their IVs coincide only for equal counter, sequence number and position |
| Srtp.CryptIsInvolution | src/call.rs:171-179 | decryption is encryption again |
| Srtp.TagInputInjective | src/call.rs:187-199 | the authenticated bytes determine packet and counter |
| Rtp.HeaderRoundTrip | src/call.rs:1772-1826 | an encoded header followed by anything is measured exactly and parsed back to its visible fields |
| Rtp.PeerHeaderRoundTrip | src/call.rs:1794-1826 | any header of section 5.1 of RFC 3550, CSRC list and extension of any length included, is measured and parsed back, and refused if cut short anywhere |
| Rtp.DemuxIff | src/call.rs:1514-1527 | the classes by the first two bytes, on arbitrary datagrams |
| Rtp.SentPacketsAreMedia | src/call.rs:1514-1527 | an encoded packet is demultiplexed as media unless it is marked with payload type 72 to 79 |
| Rtp.PeerPacketsAreMedia | src/call.rs:1514-1527 | so is any peer's packet |
| Rtp.StreamCounters | src/call.rs:1844-1907 | sequence number and timestamp after any frames are functions of their number, modulo 2^16 and 2^32 |
| Rtp.StreamLatch | src/call.rs:1881-1898 | the speech latch holds exactly while there was speech and no comfort noise since |
| Rtp.PacketHeader | src/call.rs:1881-1907 | packet k has sequence number k+1, timestamp k steps, the extension word exactly on comfort noise, and a marker exactly where asked for or where speech starts or resumes |
| Rtp.ExtensionWordIff | src/call.rs:1726-1743 | which payloads are comfort noise, read off the header of packet k, by length and first byte, in both profiles |
| Rtp.LastSent | src/call.rs:1876-1904 | the timestamp reported last is that of the last packet |
| Rtp.PrimingTransparentIff | src/call.rs:1745-1747 | a priming frame leaves the latch alone except the second one in MLow speech |
| Rtp.PrimingFrameReopensSpeech | src/call.rs:1741-1747 | concrete frames where that exception marks a speech frame twice |
| Rtp.RtpStream.NextPacket | src/call.rs:1881-1907 | the in-place sequencer emits the header and takes the state of the functions above |
| Rtp.RtpStream.SetPayloadType | src/call.rs:1858-1864 | only seven-bit types are accepted, and nothing else changes |
| Rtp.RtpStream.SetMlowProfile | src/call.rs:1870-1873 | profile and markers are switched together |
| Media.SentIndex | src/call.rs:1624-1629 | packet k is sent under the two halves of index k+1 |
| Media.KeystreamNeverRepeats | src/call.rs:148-179 | in up to 2^48 packets of at most 2^16 blocks no two payload bytes share a keystream byte |
| Media.KeystreamRepeatsAfterWrap | src/call.rs:251-264 | the bound is exact: packet k + 2^48 reuses the keystream of packet k |
| Media.UnprotectPacket | src/call.rs:1980-1999 | the in-place receive step: verify under the guess, commit only then, return header and clear payload |
| Wire.SentHeader | src/call.rs:1606-1628 | the header bytes of packet k on the wire: number, 960 samples a packet, SSRC, marker, and the 0xdebe extension with its word on comfort noise |
| Wire.SentPayload | src/call.rs:171-179 | each payload byte of packet k is XORed with AES under the cipher key on the counter block of section 4.1.1 of RFC 3711 at index k+1 |
| Wire.SentTag | src/call.rs:187-199 | the last four bytes of packet k are the HMAC under the authentication key of the bytes before them and its counter |
| Wire.HeardTag | src/call.rs:1980-1995 | so are those of every datagram heard, with the counter guessed |
| Wire.HeardBytes | src/call.rs:1980-1999 | header fields and payload of what is heard are the datagram's own bytes, decrypted at the guessed index |
| Wire.PeerPacketHeard | src/call.rs:1961-1999 | whatever a peer sends, with CSRC list and extension or not, is heard if tag and ciphertext are right under the counter guessed |
| Receiver.UnprotectUndoesProtect | src/call.rs:1961-1999 | any protected packet at any tracker: returned in the clear under the right guess, dropped without trace if the tag fails |
| Receiver.DroppedPacketsAreErasable | src/call.rs:1641-1683 | deleting every dropped datagram changes neither the tracker nor what is heard |
| Receiver.CiphertextByte | src/call.rs:171-179 | each wire byte behind the header is the payload byte XOR the keystream byte of its counter block |
| Receiver.SentPacketReceived | src/call.rs:1980-1999 | at any tracker a sent packet is heard if and only if its counter is guessed, and else leaves no trace |
| Receiver.ReceiverTracksHighest | src/call.rs:281-315 | over every run the tracked index is the highest index at which an accepted datagram was sent, and the delivery schedule alone says which that is |
| Receiver.ReceiverIsExact | src/call.rs:1641-1683 | datagram j is heard exactly when the index it was sent at is acceptable after those taken from the schedule before it, with exactly the header and payload sent |
| Receiver.RepeatIsHeardIff | src/call.rs:1980-1999 | a repeated datagram is heard again, the same, if and only if the highest index taken is still less than 2^15 past it, or at the tie exactly that |
| Receiver.OriginIsUnique | src/call.rs:1624-1629 | an authentic packet was sent at one index only, so a schedule of indices is well defined |
| Receiver.WindowedReachesPeak | src/call.rs:281-315 | on a schedule within 2^15 of the highest index delivered, starting below 2^16, that highest index is the one taken |
| Receiver.WindowedRunHearsAll | src/call.rs:1641-1683 | on such a schedule every sent packet delivered is heard with its header and payload, nothing else is, and the tracked index is the highest delivered |
| Receiver.NothingElseIsHeard | src/call.rs:1980-1995 | a datagram that was not sent is not heard |
| Receiver.ShortRunsAreNear | src/call.rs:281-315 | below 2^47 packets the side condition on the 48-bit index space holds by itself |
| Receiver.LateReceiverStaysDeaf | src/call.rs:281-306 | if only packets with index 2^16 or more arrive, none is ever heard |
| Receiver.AuthenticityIsConsistent | src/call.rs:187-214 | the hypothesis on tags can be had: for any frames and any invented datagrams, fewer than 2^32 counters and datagrams in all, there is a function in place of HMAC under which it holds of all of them |
| Receiver.MediaLoop.SendTick | src/call.rs:1606-1635 | the send arm is one step of the sending run; a failed encode changes nothing, a failed send ends the loop uncounted |
| Receiver.MediaLoop.OnDatagram | src/call.rs:1641-1685 | the receive arm is one receive step; received packets are those decrypted plus those that failed |
| Crc.ComputeCrc32 | src/call.rs:1036-1045 | the two nested loops compute the function of the burst lemmas |
| Crc.CrcIsRemainder | src/call.rs:1036-1045 | it is the CRC-32 of ITU-T V.42: the complemented remainder of the message polynomial modulo 0x104c11db7 |
| Crc.StepLinear | src/call.rs:1040-1042 | a register shift is linear over XOR |
| Crc.StepInjective | src/call.rs:1040-1042 | a register shift loses nothing |
| Crc.CrcDetectsBurst | src/call.rs:1036-1045 | equal-length messages that differ only within 32 consecutive bits have different CRCs |
| Crc.CrcDetectsFourBytes | src/call.rs:1036-1045 | so do messages that differ only within four consecutive bytes |
| Stun.EncodedIsComplete | src/call.rs:1059-1094 | complete if and only if the type's top bits are clear and attributes are padded; true length told if and only if the body fits 16 bits |
| Stun.RequestLayout | src/call.rs:1047-1094 | type, length, magic cookie, transaction and attributes stand where section 6 of RFC 5389 has them |
| Stun.CompleteIsHeader | src/call.rs:1209-1215 | on arbitrary bytes, complete means a header with clear top bits and the cookie whose length is a multiple of four and there |
| Stun.IntegrityVerifies | src/call.rs:1068-1077 | the HMAC covers the final message before MESSAGE-INTEGRITY with the length field ending there (RFC 5389, section 15.4), with or without FINGERPRINT |
| Stun.FingerprintVerifies | src/call.rs:1078-1086 | the CRC covers exactly the final message before FINGERPRINT (RFC 5389, section 15.5) |
| Stun.BurstBreaksFingerprint | src/call.rs:1036-1086 | a burst of at most 32 bits before the fingerprint always invalidates it |
| Stun.AttrsAligned | src/call.rs:1021-1033 | attribute lists are padded to four bytes |
| Stun.ParseErrorCode | src/call.rs:1235-1257 | on arbitrary bytes the walk ends in bounds with the code of the scan function |
| Stun.ErrorResponseRead | src/call.rs:1025-1257 | for any serialised attributes and trailing bytes, 100*class+number of the first ERROR-CODE with at least four bytes in an Allocate or Binding error, else nothing |
| Allocate.AllocateIsWellFormed | src/call.rs:1170-1188 | the Allocate request is always complete; it tells its length and passes the integrity check if and only if its body fits 16 bits |
| Allocate.AllocateLayout | src/call.rs:1106-1188 | token, stream descriptors and relay endpoint stand in it in that order, each with its type and length |
| Allocate.TokenFits | src/call.rs:1170-1188 | which it does exactly if padded token and padded descriptors take at most 65488 bytes, as with every token up to 65392 |
| ProtoWire.PutVarint | src/call.rs:1118-1124 | the loop appends the varint of the round trip |
| ProtoWire.VarintRoundTrip | src/call.rs:1118-1124 | every 64-bit value reads back, in at most ten bytes |
| ProtoWire.CreateStreamDescriptors | src/call.rs:1144-1166 | the nested loops produce the bytes of the round trip |
| ProtoWire.DescriptorReads | src/call.rs:1149-1163 | a descriptor has on the wire exactly its SSRC and the non-zero numbers of its row |
| ProtoWire.SlotTable | src/call.rs:1136-1140 | the table has every stream with every sub-type, in order, and a slot word of its own for each |
| ProtoWire.DescriptorsRoundTrip | src/call.rs:1136-1166 | the bytes are one message field per row with a non-zero SSRC, decode to exactly those rows in order, and fit 96 bytes |
| Stanza.NumberReads | src/call.rs:850-920 | a number is read with leading zeros or a plus sign or not, up to its maximum |
| Stanza.OtherTextRefused | src/call.rs:850-920 | nothing else is |
| Offer.OfferRoundTrip | src/call.rs:693-737 | for all arguments, parsing a built offer gives the key meant for the device with id, creator and rate, or refuses if there is none or it is empty |
| Offer.EveryDeviceRecoversItsKey | src/call.rs:410-471 | with distinct JIDs each device with a non-empty key recovers its own, in the bare and the addressed shape |
| Offer.OfferStanza | src/call.rs:486-737 | recipient, ids, and attributes and content of every fixed or optional part of a built offer |
| Offer.OfferInPlace | src/call.rs:671-737 | the children stand in the order the server insists on, each at most once |
| Offer.PeerOfferRoundTrip | src/call.rs:384-471 | sender, ids, video, all rates, key with its defaults, relay under call or offer, and the MLow gate of any peer's offer come back |
| Offer.FindRelayIsFirst | src/call.rs:891-901 | a relay is found exactly if one stands anywhere in the tree, and it is the first in document order |
| Offer.OtherStanzasRefused | src/call.rs:443-450 | a tree that is no call, or has no offer with both ids, is refused |
| Relay.ParseIndexedTokens | src/call.rs:846-864 | the padding loop builds the token table of the lemma below |
| Relay.TokenTable | src/call.rs:846-864 | at most 64 entries, each the last write to its resolved index |
| Relay.TokensInOrder | src/call.rs:846-864 | tokens without ids fill the table in order, up to 64 |
| Relay.TokenWithId | src/call.rs:846-864 | a token with an id below 64 ends up at that index |
| Relay.Te2RoundTrip | src/call.rs:867-930 | attributes and port of a written-out entry of either family are read into place, and the text of the address reads as the bytes of the body |
| Relay.Te2Reads | src/call.rs:918-930 | in any entry with an address, missing or unreadable numbers count as zero, and the protocol keeps its low byte |
| Relay.AddressInjective | src/call.rs:867-889 | the address text and port that were read determine the 6 or 18 bytes of the body |
| Relay.KeyInjective | src/call.rs:931-931 | the string key of the index tells relays apart |
| Relay.ParseEndpoints | src/call.rs:918-949 | the loop with its hash index equals grouping without one |
| Relay.FirstsIncrease | src/call.rs:931-943 | endpoints keep the order of first appearance |
| Relay.FirstsAreNew | src/call.rs:931-943 | an endpoint is opened only by an entry whose relay was not seen before |
| Relay.GroupsAreDistinct | src/call.rs:931-943 | no two endpoints have the same relay id and name |
| Relay.GroupKnown | src/call.rs:944-948 | a further entry appends its address to its relay's endpoint, replaces the RTT if it has one, and touches no other |
| Relay.GroupNew | src/call.rs:932-944 | an entry of a new relay adds one endpoint at the end |
| Relay.EntryInOneEndpoint | src/call.rs:918-949 | every entry is in exactly one endpoint, the only one for its relay |
| Relay.AddressesInOrder | src/call.rs:944-945 | an endpoint's addresses are those of its relay's entries, each once, in document order |
| Relay.AddressesConserved | src/call.rs:918-949 | the addresses of all endpoints are, with multiplicity, those of the entries with a 6- or 18-byte body |
| Relay.ParseRelayData | src/call.rs:905-961 | the block's tokens and endpoints are those of the functions above |
| Relay.RelayBlockReads | src/call.rs:905-961 | key, uuid, tokens, auth tokens and entries of a block are read each into its own field |
| Relay.MediaEndpointIsLeast | src/call.rs:964-994 | two passes over four tiers are the least (unusable, tier, position), stated on addresses, flags and the tokens held, and there is none only without endpoints |
| Pcm.BridgeIsGood | src/api.rs:1141-1170 | over every run frames cut plus buffer are the samples received, frames are full, at most eight wait, the loop reads an in-order selection, and less than a frame is buffered while it is there |
| Pcm.BufferAfterMessageIff | src/api.rs:1155-1163 | when the buffer is below a frame after a message, once the media loop is gone |
| Pcm.BufferStaysFull | src/api.rs:1155-1163 | a hang-up followed by one message that leaves a whole frame in the buffer |
| Pcm.NewestAreDropped | src/api.rs:1159-1163 | of the frames a message completes the queue takes as many of the first as it has room for; the newest are dropped whole |
| Pcm.SliceFrame | src/api.rs:1122-1133 | the outbound loops produce the little-endian slices of the lemma below |
| Pcm.SliceSizes | src/api.rs:1124-1124 | all slices but the last have 320 samples, so a frame gives three |
| Pcm.SlicesRejoin | src/api.rs:1124-1124 | slices laid end to end are the frame |
| Pcm.SamplesRoundTrip | src/api.rs:1126-1128 | little-endian samples decode back |
| Pcm.SampleAt | src/api.rs:1155-1157 | a sample is its two bytes, low one first, in two's complement |
| Pcm.SlicedFramesAreCutAgain | src/api.rs:1122-1170 | frames sliced on one side are cut into the very same frames on the other |
| Pcm.PcmBridge.OnBinary | src/api.rs:1148-1165 | the in-place message handler is one step of the bridge run |
| Pcm.PcmBridge.TryTake | src/call.rs:1608-1612 | the media loop's read takes the oldest waiting frame |
| Ogg.WalkPages | src/media.rs:255-272 | on arbitrary bytes the walk ends in bounds with the granule of the page chain |
| Ogg.StreamYieldsLastGranule | src/media.rs:255-272 | well-formed pages followed by anything that is no page header give the last page's granule |
| Ogg.TruncatedLastPageCounts | src/media.rs:264-271 | a last page cut off in its body still counts |
| Uri.UriEncode | src/media.rs:547-559 | the loop is the encoding of the lemmas |
| Uri.EncodingDecodes | src/media.rs:547-559 | percent-decoding recovers every byte string (RFC 3986, section 2.1) |
| Uri.EncodingIsSafe | src/media.rs:547-559 | only unreserved characters, percent signs and kept slashes are produced |
| Uri.EncodingOfByte | src/media.rs:547-559 | exactly letters, digits, -_.~ and kept slashes are written as themselves, any other byte as a percent sign and two upper-case digits |
| Uri.CanonicalUriInjective | src/media.rs:583-587 | two objects never share a canonical URI |
| Uri.KeySlashesStay | src/media.rs:583-587 | slashes of the key stand in the URI, those of the bucket do not |
| Backfill.FindOldestTimestamp | mcp/src/backfill.ts:26-40 | the paging loop is the function of the lemma below |
| Backfill.OldestFoundIff | mcp/src/backfill.ts:26-40 | on a static chat the true minimum is found up to 200,000 messages, ties included, and with distinct timestamps only then |
| Backfill.SecondsFoundIff | mcp/src/backfill.ts:26-40 | chats of every size that show the bound is met and sharp |
| Backfill.DeepBackfill | mcp/src/backfill.ts:58-116 | the nested loops compute the run of the lemma below |
| Backfill.ProbeTakesFirst | mcp/src/backfill.ts:82-94 | a probe takes the first reply that has rows, and gives up after asking as often as it should |
| Backfill.BackfillIsExact | mcp/src/backfill.ts:58-116 | no message is counted twice, all lie between end and start, rounds are bounded by 100, and the start counts as reached exactly after two empty rounds |
| Completeness.CountedIffThere | mcp/src/backfill.ts:78-107 | a message between end and start is counted only if stored by the query whose page passed it; and if so, unless that store has a tie at the timestamp a round stopped at |
| Completeness.OnlyTiesAreMissed | mcp/src/backfill.ts:78-107 | of the messages stored at the first probe only such ties are missed |
| Completeness.InOrderMissesNothing | mcp/src/backfill.ts:78-107 | if all that arrives below the start is older than what is stored by then, and timestamps are distinct, every message ever stored between end and start is counted |
| Completeness.QuietStoreMissesNothing | mcp/src/backfill.ts:78-107 | so too if nothing arrives below the start after the first probe |
| Completeness.LateArrivalsAreSkipped | mcp/src/backfill.ts:78-107 | a growing chat with distinct timestamps where a message stored one query late is never counted though the start is reported as reached |
| Completeness.TiesAreSkipped | mcp/src/backfill.ts:78-107 | a growing chat where a tied message is never counted though the start is reported as reached |

## Left out

- Key derivation (HKDF, the AES-CM KDF) and SSRC derivation: arbitrary keys and an arbitrary function of the slot.
- Opus and MLow codecs: a frame is the payload that was encoded.
- DTLS, SCTP, sockets, timers and the scheduling of the loop's arms: any order of steps is covered, time is not.
- Receiver.ReceiverIsExact: speaks of fewer than 2^48 packets with no sent packet 2^47 or more indices from the highest taken, because the index space itself wraps there.
- Receiver.ReceiverTracksHighest: has the same two conditions, for the same reason; `Receiver.ShortRunsAreNear` discharges the second below 2^47 packets.
- Relay.ParseRelayData: leaves out `hbh_key`, `warp_mi_tag_len` and the base64 reading of `key`, because they do not touch tokens or endpoints.
- The other stanza builders (receipt, preaccept, accept, terminate): printers with no parser in the repository.
- `encode_xor_relay_endpoint` and the consent ping: fixed layouts.
- The floating-point rounding of `ogg_opus_duration_secs`: the granule found is modelled, not its division by 48000.
- AES-CBC media encryption and the SigV4 key chain: thin layers over libraries.
- Message timestamps outside the exact integers of JavaScript, and failed HTTP calls, which end a backfill with an error.
- `src/cloud.rs`, the HTTP handlers of `src/api.rs`, the monitor and the dashboard: mappings and plumbing.
