# Verified model of the ObsidianVPN data path

ObsidianVPN carries IP packets between a client and a server through an obfuscated TCP-like stream
or through encrypted UDP datagrams. This project models the parts whose correctness is least
visible from the Go code and proves properties of them for all inputs, all interleavings or all
reachable states:

- **Downlink packet surgery** (`OnesComplement`, `TcpRewrite`, `MssRewrite`, `TcpSplit`,
  `Ipv4Fragment`, `Downlink`): incremental checksum updates, MSS normalisation and clamping, splitting
  a captured super-segment into TCP segments, IPv4 fragmentation, and what the router queues.
- **The downlink queue** (`Scheduler`): two lanes, a burst limit and a batch, as a state machine whose
  steps are the channel operations of the writer and of the goroutines that enqueue.
- **The address table** (`AddressTable`): which session owns an inner address, against the history of
  registrations, packets and closes.
- **The UDP channel** (`ReplayWindow`, `UdpWire`, `UdpSend`, `UdpChannel`, `UdpNetwork`): the sliding
  replay window, header protection, framing, sending in place, key ratchets, and a network between one
  sender and one receiver that may do anything the cipher does not prevent.
- **The stream** (`Padding`, `StreamFramer`, `Tunnel`): encrypted packets with masked headers and
  masked lengths, concurrent writers under the send lock, the receive loop.
- **The handshake** (`HelloFrame`, `Clock`, `Handshake`, `Session`): hello frames hidden behind junk,
  the hybrid key exchange, the time stamp test, and a whole session from the first byte.
- **Admission** (`RateLimiter`, `ReplayCache`): the per-address token bucket with eviction and the
  replay cache in front of the handshake.
- **Routes** (`RoutePlan`, `RouteManager`): the split-tunnel planner and the manager that installs and
  removes its routes.
- **IPv6 rejection** (`Ipv6Reject`): locally generated resets and unreachable messages.

Cryptography enters as a record of functions (`Crypto.Suite`, `Handshake.Exchange`) with the laws the
protocol relies on: opening inverts sealing and only opens what was sealed, Diffie-Hellman commutes,
decapsulation inverts encapsulation, outputs have fixed lengths. Lemmas show that the laws can be
satisfied. What a network may deliver is limited at the cipher only: a ciphertext that opens under a
session key was sealed under it (`UdpNetwork.Unforged`). Random bytes, clocks and the answers of the
operating system are parameters. Times are nanoseconds or seconds as in the code, and fixed-width
arithmetic is written out where it can wrap.

## Where the code and its description differ

- The padding calculation is described as never exceeding the MTU. That holds exactly for an MTU of at
  least 4 (`Padding.PaddedLengthBounds`, and `Padding.TinyMtuIsExceeded` for an input).
- The incremental MSS checksum equals a full recomputation exactly when the old checksum verified and
  one degenerate case does not apply; a non-zero MSS is never degenerate
  (`TcpRewrite.PatchIsRecomputation`).
- Fragments reassemble to the datagram exactly when every fragment offset fits its 13 bits
  (`Ipv4Fragment.FragmentsReassemble`); a datagram of legal size always satisfies this, and
  `Ipv4Fragment.OffsetsOverflow` is one that does not.
- An IPv4 datagram that fits the client is dropped exactly when the captured buffer holds trailing bytes
  beyond the limit, because the length of the buffer decides (`Downlink.FittingIsDroppedExactly`,
  `Downlink.TrailerIsDropped`).
- A UDP payload too large for the scratch buffer is sent without its length prefix, and a receiver with
  bucket padding may cut it; the payload survives exactly when `UdpWire.Clean` holds.
- A client's UDP send buffer is sized before padding. A padded plaintext can be larger than the buffer,
  and the send then slices beyond its capacity: with a bucket MTU of 2040, 1100 bytes need 2088 bytes of
  2048, and with one of 4000 and a trailer of up to 1000, 700 bytes can need 2052
  (`UdpSend.PaddedSendOverruns`, `UdpSend.TrailedSendOverruns`). It can happen exactly for the bucket MTUs
  and trailers of `UdpSend.CanOverrun` (`UdpSend.AlwaysFitsExactly`). The server sizes its buffer after padding and
  is not affected.
- Between the two critical sections of its ratchet a client drops every datagram of its current epoch. A
  receiver that sees the next header key before the next tag, and a server between its two sections, reads
  one only if both header keys mask it alike. A server that has not listed its new tag yet reads the new
  epoch only while the session is its most recently used one (`UdpNetwork.MidRatchetDrops`,
  `UdpNetwork.WholeSendDecodes`).
- A server reads tag, key and header key of a send without the lock its ratchet holds. A send torn between
  two epochs is lost at a settled client (`UdpNetwork.TornSendIsLost`).
- Bucket padding on the stream is cut to 255 bytes, so a packet reaches its bucket exactly when 255 bytes
  are enough (`StreamFramer.BucketReached`).
- The owner of an address and the only session are looked up under two separate locks. The result can be
  wrong at both moments; exactly when is `AddressTable.TwoLooksExactly`.
- The confirmation in the server's reply and the server's first frame are sealed with the same key and
  nonce, so a pair repeats exactly when the server sends a frame (`Session.SealsRepeatExactly`).
- STUN headers can be switched off for sending, but the receiver always looks for them. A packet then
  survives exactly when it does not look like a STUN or SRTP header (`UdpWire.StripIsExact`). With a
  session tag that looks like SRTP every packet of the epoch loses its first 12 bytes, and is dropped
  unless its ciphertext happens to begin with a known tag (`UdpWire.SrtpTagIsMisread`,
  `UdpNetwork.MisreadIsDropped`).
- The replay window's unmarking loop has a 64-bit loop variable. It ends exactly when the counter is
  below 2^64 - 1 (`ReplayWindow.ClearingEnds`), which is why `Window.Check` excludes one counter.
- A picked header id is recognised exactly when its range is not inverted; validation only tests that
  the ranges do not overlap (`StreamFramer.PickIsRecognised`, `StreamFramer.InvertedIsNotRecognised`).
- The absolute value in the time stamp test wraps for a difference of exactly 2^63 seconds
  (`Clock.FreshMeans`, `Clock.FarStampIsFresh`).
- The replay cache keeps a hello for two minutes from the lookup, the time stamp test comes later. A
  hello passes both at most once exactly when less than 60 whole seconds lie between the two
  (`ReplayCache.DelayBoundIsExact`).
- Dropping idle rate-limit entries changes no answer exactly when an empty bucket refills before it can
  be dropped; below 10^9 tokens per second this is burst <= 10 * rate
  (`RateLimiter.EvictionIsInvisibleExactly`). Exactly then is every window of every run within the rate
  (`RateLimiter.EveryWindowExactly`).
- In exclude mode an entry bypasses the tunnel only if its prefix is longer than one bit, because the
  tunnel's default routes have one bit (`RoutePlan.ExcludeModeBypasses`).
- The rejection code is described as not answering packets to or from unspecified addresses; the code tests
  only the source. A reply never goes to an unspecified address, and it comes from one exactly when the
  packet was sent to one (`Ipv6Reject.UnspecifiedExactly`); `Ipv6Reject.UnspecifiedIsAnswered` is such a
  packet.
- The frame label has 17 characters and is copied into 16 bytes; the model uses the 16 bytes.

## Model

| member | source | states |
|---|---|---|
| `OnesComplement.OnesSum` | cmd/server/mss.go:103-112 | the loop computes the sum of big-endian words, the odd byte as a high byte, modulo 2^32; exact for any packet-sized input |
| `OnesComplement.FoldSum` | cmd/server/mss.go:114-119 | repeated folding ends in the closed form: congruent modulo 65535, below 2^16, zero only for zero |
| `OnesComplement.FoldStep` | cmd/server/mss.go:114-119 | one folding step does not change the folded value |
| `OnesComplement.ComplementVerifies` | cmd/server/mss.go:133-143 | the complement of the folded rest makes the whole sum all ones, and apart from 0xffff no other value does |
| `OnesComplement.SumPut16` | cmd/server/mss.go:148-157 | writing an aligned word changes the sum by exactly the difference |
| `OnesComplement.OddByteIsHigh` | cmd/server/mss.go:103-112 | an odd last byte counts as if a zero byte followed it |
| `TcpRewrite.TunnelMTUFor` | cmd/server/mss.go:22-27 | the MTU is positive and at most the maximum, and a configured value in range is used unchanged |
| `TcpRewrite.LocateTCP` | cmd/server/mss.go:39-79 | a located layout lies within the packet |
| `TcpRewrite.LocatedExactly` | cmd/server/mss.go:39-79 | an if-and-only-if over the bytes of the packet: version, protocol, no fragment, DF allowed, lengths consistent; and which layout is found |
| `TcpRewrite.MssOptionValue` | cmd/server/mss.go:82-100 | the option walk returns the value offset of the first MSS option among the well-formed options, or -1 if there is none |
| `TcpRewrite.MssFromIsFirst` | cmd/server/mss.go:82-100 | the recursive form of the walk finds the first MSS option in the list of option offsets |
| `TcpRewrite.OptionsAreFound` | cmd/server/mss.go:82-100 | the walk finds exactly the options a sender writes, for every list of options, with or without an end marker |
| `TcpRewrite.TcpSum` | cmd/server/mss.go:122-137 | pseudo-header and segment fold to the specified sum, IPv4 and IPv6 |
| `TcpRewrite.PseudoHeaderSum` | cmd/server/mss.go:122-131 | the pseudo sum is the word sum of the pseudo-headers of RFC 9293 and RFC 8200 |
| `TcpRewrite.SetTCPChecksum` | cmd/server/mss.go:133-137 | in place: only the checksum of the segment changes, to the recomputed one |
| `TcpRewrite.SetIPv4Checksum` | cmd/server/mss.go:140-143 | in place: only the header checksum changes, to the recomputed one |
| `TcpRewrite.TcpChecksumVerifies` | cmd/server/mss.go:133-137 | a recomputed segment verifies, is never encoded as 0xffff, and otherwise verifying and being recomputed coincide |
| `TcpRewrite.Ipv4ChecksumVerifies` | cmd/server/mss.go:140-143 | a recomputed IPv4 header verifies |
| `TcpRewrite.SameAddresses` | cmd/server/mss.go:122-137 | the TCP verdict depends on the IP header only through its addresses |
| `TcpRewrite.PatchKeepsSum` | cmd/server/mss.go:148-157 | the incremental update keeps the whole sum modulo 65535, at even and odd offsets |
| `TcpRewrite.PatchKeepsVerdict` | cmd/server/mss.go:148-157 | after the incremental update the segment verifies if and only if it did before |
| `TcpRewrite.PatchIsRecomputation` | cmd/server/mss.go:148-157 | the incremental update is bit for bit the full recomputation if and only if the old checksum verified and the case is not degenerate |
| `MssRewrite.PatchSum` | cmd/server/mss.go:148-157 | the three-term update of RFC 1624 section 3 over the touched words |
| `MssRewrite.SetMSSValue` | cmd/server/mss.go:148-157 | in place: the segment becomes the patched one, every byte outside it is untouched |
| `MssRewrite.FindSynMss` | cmd/server/mss.go:161-171 | returns what SynMssExactly characterises |
| `MssRewrite.SynMssExactly` | cmd/server/mss.go:161-171 | found is exactly the value of the first MSS option in the header of a located packet with the SYN flag set |
| `MssRewrite.SynIsRewritten` | cmd/server/mss.go:161-211 | a SYN that announces 1360 is raised to 1460 and shows a client MTU of 1400; a limit of 1280 lowers it to 1240 |
| `MssRewrite.NormalizeUplinkSYN` | cmd/server/mss.go:161-183 | in place: packet and returned client MTU are the specified ones |
| `MssRewrite.ClampDownlinkSYN` | cmd/server/mss.go:187-211 | in place: the packet is the specified one |
| `MssRewrite.RewriteLaws` | cmd/server/mss.go:148-157 | a rewritten SYN is located the same, carries the new MSS, differs only in MSS and checksum, verifies iff the original did and then equals the recomputation |
| `MssRewrite.NormalizeLaws` | cmd/server/mss.go:161-183 | uplink: MSS is the maximum of the client's and the external one, the reported MTU is the client's, other packets are untouched, the verdict is kept, a second pass changes nothing |
| `MssRewrite.ClampLaws` | cmd/server/mss.go:187-211 | downlink: MSS is the minimum of the old one and what the limit allows, never raised, other packets are untouched, the verdict is kept, a second pass changes nothing |
| `TcpSplit.BuildPiece` | cmd/server/mss.go:231-249 | one segment built in a fresh buffer equals its specification |
| `TcpSplit.SplitTCP` | cmd/server/mss.go:216-253 | splits exactly the splittable packets, into consecutive pieces that cover the payload; otherwise returns nothing |
| `TcpSplit.SplittableExactly` | cmd/server/mss.go:216-229 | split are exactly the located packets whose headers are shorter than the limit and whose total length is longer |
| `TcpSplit.PieceIsGood` | cmd/server/mss.go:227-251 | a piece fits, is located as TCP with the same headers, has the right sequence number, identification and flags, and both checksums verify |
| `TcpSplit.EachPieceIsGood` | cmd/server/mss.go:216-253 | every piece of every split is such a piece |
| `TcpSplit.EachPieceIsSegment` | cmd/server/mss.go:216-253 | piece k carries exactly the payload slice that starts at k chunks |
| `TcpSplit.CarriedByte` | cmd/server/mss.go:216-253 | a byte that a piece places at a sequence position is the payload byte of that position |
| `TcpSplit.ByteIsCarried` | cmd/server/mss.go:216-253 | every payload byte is carried at its sequence position, modulo 2^32 |
| `TcpSplit.CarriedOnce` | cmd/server/mss.go:216-253 | no sequence position is carried twice |
| `TcpSplit.FlagsAtTheEnd` | cmd/server/mss.go:244-248 | the last piece has the original flags, all others have FIN and PSH cleared and the rest kept |
| `TcpSplit.ClearFinPsh` | cmd/server/mss.go:244-248 | clears FIN and PSH and no other flag |
| `Ipv4Fragment.BuildFragment` | cmd/server/mss.go:276-287 | one fragment built in a fresh buffer equals its specification |
| `Ipv4Fragment.FragmentIPv4` | cmd/server/mss.go:258-290 | fragments exactly the fragmentable datagrams, into the specified sequence; otherwise returns nothing |
| `Ipv4Fragment.EmitFragments` | cmd/server/mss.go:272-290 | the loop emits the specified fragments, in order |
| `Ipv4Fragment.FragmentableExactly` | cmd/server/mss.go:258-272 | fragmented are exactly the IPv4 packets longer than the limit that leave room for 8 bytes behind the header |
| `Ipv4Fragment.FragmentsAreFull` | cmd/server/mss.go:258-290 | every fragment but the last carries the largest multiple of 8 bytes that fits |
| `Ipv4Fragment.FragmentBytes` | cmd/server/mss.go:276-287 | a fragment keeps the header apart from length, offset field and checksum, and carries the named slice |
| `Ipv4Fragment.FragmentChecksum` | cmd/server/mss.go:286 | the header checksum of every fragment verifies |
| `Ipv4Fragment.FieldMeaning` | cmd/server/mss.go:271-285 | what the offset field says: the absolute offset and the more-fragments bit, and by how much an offset too large for the field falls short |
| `Ipv4Fragment.ViewExactly` | cmd/server/mss.go:258-290 | offset, data and more-fragments flag of a packet, from its bytes |
| `Ipv4Fragment.FragmentsReassemble` | cmd/server/mss.go:258-290 | all fragments fit and verify, and any receiver that places fragments by offset gets the datagram back, in any order, if and only if the offsets fit 13 bits |
| `Ipv4Fragment.OffsetsOverflow` | cmd/server/mss.go:258-290 | a fragment at the highest offset, 4000 bytes over a link of 1280, whose fragments do not reassemble |
| `Ipv4Fragment.RefragmentationReassembles` | cmd/server/mss.go:258-290 | fragments that are fragmented again still reassemble to the first datagram |
| `Downlink.SendOversized` | cmd/server/tun_router.go:127-144 | an oversized packet becomes its segments, else its fragments, else nothing |
| `Downlink.QueuedFits` | cmd/server/tun_router.go:101-144 | everything queued fits the limit, and nothing is queued if and only if the packet can be neither split nor fragmented |
| `Downlink.SegmentsStayInOneLane` | cmd/server/tun_router.go:127-144 | all segments of one packet take the bulk lane, so the queue cannot reorder them |
| `Downlink.FittingIsDroppedExactly` | cmd/server/tun_router.go:101-144 | a datagram that fits is dropped if and only if it was captured with bytes beyond the limit behind it |
| `Downlink.TrailerIsDropped` | cmd/server/tun_router.go:101-144 | a 20-byte datagram with one byte behind it is dropped at a limit of 20 |
| `Downlink.Session.WriteToTUN` | cmd/server/tun_router.go:239-247 | the SYN is normalised in place and the session MTU becomes the client's, between the floor and the tunnel MTU |
| `Downlink.Session.Deliver` | cmd/server/tun_router.go:101-122 | the packet is clamped in place and everything queued for it fits both the client's MTU and the tunnel's |
| `Scheduler.LocatedIsInteractive` | cmd/server/tun_router.go:259-295 | the classifier and the TCP locator agree: a located segment is latency sensitive if and only if it has no payload |
| `Scheduler.InteractiveExactly` | cmd/server/tun_router.go:259-295 | the latency lane is exactly for consistent packets of ICMP, UDP up to 600 bytes, and TCP without payload |
| `Scheduler.PlacedExactly` | cmd/server/tun_router.go:297-315 | which lane takes a packet, with the capacities 256 and 1024, and when it is refused |
| `Scheduler.BatchExactly` | cmd/server/tun_router.go:345-398 | a batch takes queued bulk packets until it holds 32 or none is left |
| `Scheduler.WriterAdvances` | cmd/server/tun_router.go:317-412 | without new packets the writer comes to rest: every step of its own lowers a bound |
| `Scheduler.WriterRests` | cmd/server/tun_router.go:317-412 | it rests if and only if it has stopped, or both lanes are empty and the session is open |
| `Scheduler.StaleAreDropped` | cmd/server/tun_router.go:372-385 | over every run the k-th handled packet is sent if and only if it was handled at most 100 ms after it was queued |
| `Scheduler.StepKeeps` | cmd/server/tun_router.go:297-412 | every channel operation, the two attempts of an enqueue taken apart, keeps: each accepted packet is in exactly one place, and lanes are first in, first out |
| `Scheduler.ConservedStep` | cmd/server/tun_router.go:297-315 | every channel operation keeps: each offered packet is accepted by one lane, refused, or still between its two attempts |
| `Scheduler.EveryRunConserves` | cmd/server/tun_router.go:297-412 | over every interleaving no offered packet is lost or counted twice |
| `Scheduler.EveryRunKeepsOneFate` | cmd/server/tun_router.go:297-412 | the same over every interleaving |
| `Scheduler.BulkNotStarved` | cmd/server/tun_router.go:317-369 | while a bulk packet waits, the latency packets handled before the next bulk packet are at most the remaining burst budget |
| `Scheduler.LatencyGoesFirst` | cmd/server/tun_router.go:317-369 | every bulk packet handled follows a full latency burst or a moment when the latency lane was seen empty |
| `Scheduler.EveryRun` | cmd/server/tun_router.go:297-412 | from the empty queue, in every interleaving: offered packets are conserved, one fate per accepted packet, order within lanes, a handled packet is sent if and only if it is at most 100 ms old, justified bulk turns, and at most 64 latency packets before a waiting bulk packet |
| `AddressTable.OwnsAppend` | cmd/server/tun_router.go:160-237 | how ownership of an address changes with one more event of the history |
| `AddressTable.ViewAfterRegister` | cmd/server/tun_router.go:160-176 | registering changes nobody's ownership |
| `AddressTable.ViewAfterSend` | cmd/server/tun_router.go:213-237 | a packet of an active session moves its source address to that session |
| `AddressTable.ViewAfterClose` | cmd/server/tun_router.go:414-427 | closing releases exactly the session's addresses |
| `AddressTable.InverseAfterLearn` | cmd/server/tun_router.go:213-237 | moving an address keeps the two maps inverse to each other |
| `AddressTable.Router.RegisterSession` | cmd/server/tun_router.go:160-176 | a new session without addresses; the maps stay a view of the history |
| `AddressTable.Router.LearnFromClientPacket` | cmd/server/tun_router.go:213-237 | the packet's source belongs to the session from now on, unless the session is closed; malformed packets and unspecified or multicast sources, mapped ones included, change nothing |
| `AddressTable.Router.Learn` | cmd/server/tun_router.go:219-236 | the part under the lock moves the address and keeps both maps in step with the history |
| `AddressTable.Endpoints` | cmd/server/tun_router.go:501-528 | source and destination of one length, 4 or 16 bytes |
| `AddressTable.EndpointsExactly` | cmd/server/tun_router.go:501-528 | an if-and-only-if over the bytes: offsets 12 and 16 of IPv4, 8 and 24 of IPv6 |
| `AddressTable.TeachesExactly` | cmd/server/tun_router.go:213-218 | a packet teaches its source unless that is all zero or multicast of either family, mapped or not |
| `AddressTable.Router.Close` | cmd/server/tun_router.go:414-427 | the session and all its addresses leave the table, and nothing else |
| `AddressTable.Router.LookUpOwner` | cmd/server/tun_router.go:191-196 | under the first read lock: the session that owns the address in the history, or none |
| `AddressTable.Router.SingleSession` | cmd/server/tun_router.go:201-211 | under the second read lock: the only active session, or none if there is not exactly one |
| `AddressTable.Router.SessionForPacket` | cmd/server/tun_router.go:185-211 | without interference: the owner of the destination, without an owner the only session, never a closed one |
| `AddressTable.OwnerIsActive` | cmd/server/tun_router.go:213-237 | an owner is an active session, and an address has at most one |
| `AddressTable.TwoLooksExactly` | cmd/server/tun_router.go:185-211 | with anything happening between the two locks: the outcome is right at one of the two moments, unless at the first the only session did not own the address and at the second the address has an owner among several sessions, and then it is wrong |
| `AddressTable.OwnerMissed` | cmd/server/tun_router.go:185-211 | an interleaving in which the packet of the only session is dropped |
| `ReplayWindow.Window.constructor` | obsidian/udp.go:239-243 | a new window has accepted nothing |
| `ReplayWindow.Window.ClearPassed` | obsidian/udp.go:256-259 | moving the window unmarks the skipped counters and keeps the marks of those still inside |
| `ReplayWindow.Window.ClearAll` | obsidian/udp.go:252-254 | a jump of a whole window unmarks everything |
| `ReplayWindow.Window.Mark` | obsidian/udp.go:262-263 | marks one counter and no other of the window |
| `ReplayWindow.Window.Check` | obsidian/udp.go:245-278 | the 64-word bitmap answers as the unbounded set of all accepted counters would |
| `ReplayWindow.ClearingEnds` | obsidian/udp.go:256-259 | the 64-bit loop ends if and only if the counter is below 2^64 - 1 |
| `ReplayWindow.AcceptedStays` | obsidian/udp.go:245-278 | an accepted counter is remembered, or below the window, for ever |
| `ReplayWindow.NeverTwice` | obsidian/udp.go:245-278 | over every sequence of calls no counter is accepted twice |
| `ReplayWindow.FreshIsAccepted` | obsidian/udp.go:245-278 | a counter not accepted before and less than 4096 below the maximum is accepted |
| `ReplayWindow.AcceptedExactly` | obsidian/udp.go:245-278 | after any calls, a counter is accepted if and only if it was not called before and no call was 4096 or more above it |
| `UdpWire.UnframeFrame` | obsidian/udp.go:430-553 | unframing returns the payload if and only if it was framed, or cannot be mistaken for a frame |
| `UdpWire.LargePayloadIsCut` | obsidian/udp.go:430-475 | a payload of 2049 bytes that the receiver cuts |
| `UdpWire.NonceInjective` | obsidian/udp.go:175-179 | different counters give different nonces |
| `UdpWire.StunIsStripped` | obsidian/udp.go:96-127 | the STUN header that a sender adds is recognised and stripped again |
| `UdpWire.StripIsExact` | obsidian/udp.go:430-490 | the receiver strips exactly what the sender added, if and only if a STUN header was added or the packet does not look like a STUN or SRTP header |
| `UdpWire.StrippedExactly` | obsidian/udp.go:96-127 | which bytes make a STUN or an SRTP header, and how much is cut |
| `UdpWire.SrtpTagIsMisread` | obsidian/udp.go:105-490 | without STUN headers, a session tag that looks like SRTP makes the receiver cut 12 bytes off every packet of the epoch |
| `UdpWire.OpenInvertsSeal` | obsidian/udp.go:430-475 | a packet opens to the counter and plaintext it was built from, through the header protection |
| `UdpWire.OpenOnlySealed` | obsidian/udp.go:478-553 | whatever opens is byte for byte the packet built from what it opens to |
| `UdpWire.UnmaskExactly` | obsidian/udp.go:183-189 | another header key unmasks the counter if and only if it masks alike next to this ciphertext |
| `UdpWire.PacketOnWire` | obsidian/udp.go:430-475 | byte for byte: tag, counter xor the block of the first 16 ciphertext bytes, and the seal under four zeros and the counter |
| `UdpWire.StunOnWire` | obsidian/udp.go:96-127 | type, length of the packet, magic cookie, transaction id, packet |
| `UdpSend.FramePlain` | obsidian/udp.go:433-453 | length, payload and random padding are built in the scratch buffer, or the payload is left alone |
| `UdpSend.SealInto` | obsidian/udp.go:458-467 | tag, counter and ciphertext are built in place, the counter masked last; whatever fits the capacity is exactly the packet |
| `UdpSend.Send` | obsidian/udp.go:430-475 | in place on a buffer of any length and capacity: refused, overrun or complete, each exactly when, and complete means the specified datagram |
| `UdpSend.MtuOverruns` | obsidian/udp.go:409-475 | for every bucket MTU that fits the scratch buffer but not the send buffer, 1100 bytes overrun |
| `UdpSend.TrailerOverruns` | obsidian/udp.go:409-475 | for every larger bucket MTU, 700 bytes and a trailer just long enough overrun |
| `UdpSend.TrailedSendOverruns` | obsidian/udp.go:409-475 | bucket MTU 4000, a trailer of up to 1000, 700 bytes and 245 steps: 2052 bytes are needed, 812 are asked for, 2048 are there |
| `UdpSend.PaddedSendOverruns` | obsidian/udp.go:409-475 | bucket MTU 2040, 1100 bytes, STUN on: 2088 bytes are needed, 1212 are asked for, 2048 are there |
| `UdpSend.AlwaysFitsExactly` | obsidian/udp.go:409-475 | every payload with every trailer fits the pooled buffer, if and only if the settings are not among those that can overrun, for all bucket MTUs and trailer limits |
| `UdpChannel.Channel.constructor` | obsidian/udp.go:376-407 | a new channel: counter zero, empty window, no previous epoch |
| `UdpChannel.Channel.SendWithBuffer` | obsidian/udp.go:419-475 | a buffer shorter than asked for is refused and uses no counter; otherwise one counter is used, and the datagram is complete if and only if it fits the capacity |
| `UdpChannel.Channel.Send` | obsidian/udp.go:410-417 | the same with a pooled buffer: never refused, complete if and only if it fits |
| `UdpChannel.Channel.RatchetSendHalf` | obsidian/udp.go:358-364 | the sending half of a ratchet switches key, tag and mask key and nothing else |
| `UdpChannel.Channel.RatchetRecvHalf` | obsidian/udp.go:366-371 | the receiving half switches the key and keeps the old epoch |
| `UdpChannel.Channel.Receive` | obsidian/udp.go:478-553 | one datagram decodes under the epoch its tag selects, passes the window, and is unframed |
| `UdpNetwork.RatchetAdvances` | obsidian/udp.go:344-374 | the assignments, one by one, take the receiver from the keys of one epoch to those of the next |
| `UdpNetwork.UnforgedIsGenuine` | obsidian/udp.go:478-553 | with any keys of the session, torn between the steps of a ratchet or not: stripping, tag selection, unmasking and opening let nothing through but sends, with their own counter and plaintext, if the cipher holds |
| `UdpNetwork.DecodedIsPacket` | obsidian/udp.go:478-553 | whatever decodes is byte for byte the packet of a send under the keys its tag selects |
| `UdpNetwork.StepKeepsInv` | obsidian/udp.go:430-553 | sends, whole and torn, every assignment of a ratchet, and arrivals of anything unforged read with any keys of the session keep the invariant |
| `UdpNetwork.SafeOverRuns` | obsidian/udp.go:756-877 | over every run, at a client or a server, however reads interleave with ratchets, against every network the cipher withstands: each delivery is one non-empty send, no send is delivered twice, and it is delivered unchanged if and only if its framing is clean |
| `UdpNetwork.SentDecodes` | obsidian/udp.go:478-553 | a sent datagram, torn or whole, read with any keys of the session: it decodes to its send if the selected keys are those it was made with, up to header keys that mask alike, and otherwise not at all if its tag is unknown or its one ciphertext opens under no other key |
| `UdpNetwork.SelectedInPhase` | obsidian/udp.go:478-519 | which keys the tag of each epoch selects at every moment of a ratchet, at a client and at a server |
| `UdpNetwork.WholeSendDecodes` | obsidian/udp.go:344-553 | an if-and-only-if over epoch and every moment of a ratchet; a client clear of it needs no assumption on the cipher |
| `UdpNetwork.MidRatchetDrops` | obsidian/udp.go:358-371 | in the gap a client drops every datagram of its current epoch |
| `UdpNetwork.TornSendIsLost` | obsidian/udp.go:923-935 | a send with the tag of one epoch and the key of another is not read by a settled client |
| `UdpNetwork.MisreadIsDropped` | obsidian/udp.go:484-512 | without STUN headers and with a tag that looks like SRTP, a datagram is dropped unless its ciphertext begins with a known tag |
| `UdpNetwork.SentIsUnforged` | obsidian/udp.go:880-948 | a send whose one ciphertext opens under no other key of the session may arrive, at any time and any number of times |
| `UdpNetwork.ReplayOfRun` | obsidian/udp.go:245-278 | the window after a run is the window after the counters that its arrivals decoded to |
| `UdpNetwork.DeliveredExactly` | obsidian/udp.go:478-553 | after any run, an arriving send is delivered if and only if its epoch is in reach, no earlier arrival decoded to its counter or was 4096 or more ahead, it is not empty, and the queue has room; for a client clear of its ratchet from the integrity of the cipher alone |
| `Padding.FindBucket` | obsidian/obfuscation.go:110-126 | the loop finds the smallest bucket that holds the payload, or none above 1024 |
| `Padding.BucketExactly` | obsidian/obfuscation.go:110-126 | the bucket is the least of 64, 256, 512 and 1024 that is not too small, and the MTU above that |
| `Padding.CalculateBucketPaddingWithTrailer` | obsidian/obfuscation.go:106-148 | payload plus padding is the specified length for every random trailer, and no padding outside the valid range |
| `Padding.PaddedLengthBounds` | obsidian/obfuscation.go:106-148 | the padded length is at most the MTU if and only if the MTU is at least 4; when it is aligned; never below the payload or its bucket |
| `Padding.TinyMtuIsExceeded` | obsidian/obfuscation.go:106-148 | one byte with an MTU of 2 becomes 4 bytes |
| `StreamFramer.Validate` | obsidian/protocol.go:95-108 | accepts exactly pairwise disjoint ranges |
| `StreamFramer.PickIsRecognised` | obsidian/protocol.go:61-143 | a picked id is recognised as its own type if and only if its range is not inverted |
| `StreamFramer.InvertedIsNotRecognised` | obsidian/protocol.go:61-143 | an inverted range that is accepted and whose pick is not recognised |
| `StreamFramer.CipherNonceInjective` | obsidian/crypto.go:245-255 | different counters give different nonces |
| `StreamFramer.NonceByte` | obsidian/crypto.go:245-255 | byte i of a nonce is byte i of the base nonce xor byte i of the little-endian counter |
| `StreamFramer.XorHeaderInvolution` | obsidian/protocol.go:179-201 | masking twice gives the header back |
| `StreamFramer.UnmaskHeaderExactly` | obsidian/protocol.go:179-201 | unmasking with another key gives the header back if and only if the two key streams agree |
| `StreamFramer.PacketOnWire` | obsidian/protocol.go:439-480 | byte for byte: each header byte xor the key stream of the first 12 ciphertext bytes, and the seal of payload and padding with the plain header |
| `StreamFramer.PaddingWithin` | obsidian/protocol.go:439-562 | padding lies between its settings, 16 and 64 for HANDSHAKE and CLOSE, and is cut to 255 bytes |
| `StreamFramer.PaddingRoom` | obsidian/protocol.go:443-449 | the room for padding is below 256, so its length fits its header byte |
| `StreamFramer.FastRandomPadding` | obsidian/crypto.go:306-321 | the padding fits its buffer and stays in its range when that fits |
| `StreamFramer.Choose` | obsidian/protocol.go:394-458 | bounds, bucket, room and size chosen as the encoder does, for all settings and random picks: the padding fits one byte and the type id its range |
| `StreamFramer.BucketReached` | obsidian/protocol.go:394-458 | a bucket-padded packet reaches its padded length if and only if 255 bytes of padding are enough, and otherwise has exactly 255 |
| `StreamFramer.DecodeInvertsEncode` | obsidian/protocol.go:439-540 | decoding an encoded packet returns the message, for every padding and id, within the frame limit |
| `StreamFramer.DecodeOnlyEncoded` | obsidian/protocol.go:496-540 | whatever decodes is byte for byte the encoding of what it decodes to |
| `Tunnel.MaskFrameLenInvolution` | obsidian/protocol.go:364-373 | masking twice gives the length back |
| `Tunnel.LengthOnWire` | obsidian/protocol.go:364-412 | the four bytes in front are the length of the packet xor the first 32 bits of the code over label and frame counter |
| `Tunnel.UnmaskLengthExactly` | obsidian/protocol.go:364-373 | with another key or counter the length comes back if and only if the two codes agree |
| `Tunnel.FrameIsRead` | obsidian/protocol.go:394-412 | a frame in front of any bytes is read as its message and leaves those bytes |
| `Tunnel.StreamRoundTrip` | obsidian/obfuscation.go:461-571 | for every interleaving of senders, failed and expired calls included, the receiver reads exactly the messages sent in lock order and continues at the sender's counters |
| `Tunnel.WireConcat` | obsidian/obfuscation.go:461-485 | calls one after the other write what they write together |
| `Tunnel.EndToEnd` | obsidian/obfuscation.go:461-571 | from fresh counters: all messages back in order, counters equal, nothing left over, no failure |
| `Tunnel.PartialFrameWaits` | obsidian/obfuscation.go:509-571 | a frame cut anywhere yields nothing and no error |
| `Tunnel.BrokenWriteWaits` | obsidian/obfuscation.go:487-506 | after a write that broke off anywhere in a frame, everything sent before is read and the rest only makes the receiver wait |
| `Tunnel.WriteFrameLocked` | obsidian/obfuscation.go:487-506 | for all answers of the connection: a prefix goes out, all of it on success, and less only if the last write made failed or took nothing, all earlier ones having succeeded |
| `Tunnel.Limits.NoticedSoon` | obsidian/obfuscation.go:433-444 | a session past its limits notices within 1024 packets |
| `Tunnel.Limits.WithinLimitsLives` | obsidian/obfuscation.go:433-444 | a session within its limits does not expire |
| `Tunnel.Endpoint.constructor` | obsidian/protocol.go:394-412 | all counters start at zero |
| `Tunnel.Endpoint.FrameWithBuffer` | obsidian/protocol.go:394-412 | for all padding settings and picks: writes exactly the frame and advances both counters, or fails and leaves buffer and counters as they were, each exactly when |
| `Tunnel.Endpoint.WritePacket` | obsidian/obfuscation.go:461-506 | one call writes a prefix of its frame, all of it on success, nothing when expired or too large; the counters advance with the frame even if the write breaks off |
| `Tunnel.QueuedIsData` | obsidian/obfuscation.go:550-571 | what is queued: of the messages handled every DATA payload for which there was room, and none behind a CLOSE |
| `Tunnel.Endpoint.ReadFrame` | obsidian/obfuscation.go:523-548 | one frame off the front, or where both counters stand after a short or overlong frame, one refused before decryption, and one that fails to open |
| `Tunnel.Endpoint.RecvLoop` | obsidian/obfuscation.go:509-571 | queues the DATA payloads up to the first CLOSE, the expiry, or the payload at which the reader is gone; where both counters end in each of these cases and after a bad frame |
| `HelloFrame.ReadHelloFrame` | obsidian/handshake.go:182-221 | the shifting 28-byte window returns the frame at the first authentic position within the scan bound, and otherwise the right error, and how many bytes it consumes |
| `HelloFrame.ReadPayload` | obsidian/handshake.go:201-210 | behind an authentic window: the payload, or the error for one too large or cut off |
| `HelloFrame.FrameOnWire` | obsidian/handshake.go:157-177 | byte for byte: nonce, 8 bytes of the code over nonce and label, length xor the next 4 bytes, payload |
| `HelloFrame.LongPayloadIsRefused` | obsidian/handshake.go:157-177 | a payload is refused if and only if it is longer than 8192 bytes |
| `HelloFrame.ScanReach` | obsidian/handshake.go:182-221 | a scan reads 4096 bytes unless told otherwise, and accepts 8192 bytes of payload unless told otherwise |
| `HelloFrame.BuiltFrameIsAuthentic` | obsidian/handshake.go:157-177 | a built frame authenticates and announces its length |
| `HelloFrame.HelloIsFound` | obsidian/handshake.go:157-221 | behind any junk in which nothing authenticates, the payload is found and not a byte more is consumed |
| `HelloFrame.FoundIsBuilt` | obsidian/handshake.go:157-221 | whatever is found is byte for byte a built frame |
| `Clock.FreshWithinTolerance` | obsidian/handshake.go:588-592 | for stamps a clock can show, the 64-bit test is a distance of at most 30 seconds |
| `Clock.FreshMeans` | obsidian/handshake.go:588-699 | for every stamp: within 30 seconds, or exactly 2^63 away |
| `Clock.FarStampIsFresh` | obsidian/handshake.go:588-699 | a stamp exactly 2^63 seconds ahead passes, whatever the clock shows |
| `Handshake.ParseMessage` | obsidian/handshake.go:289-357 | a message parses back to its fields whatever the paddings |
| `Handshake.ParseExactly` | obsidian/handshake.go:360-390 | a message parses to its fields if and only if they stand behind some padding, whatever follows |
| `Handshake.MessageIsLaid` | obsidian/handshake.go:345-357 | the second padding stands behind the fields with its length |
| `Handshake.KeyMaterial` | obsidian/crypto.go:190-211 | the six session keys are consecutive parts of one derivation from secret, salt and both public keys |
| `Handshake.ParseHello` | obsidian/handshake.go:516-560 | the offset-by-offset parser is the specified one, refusing every truncation |
| `Handshake.IdentityArrives` | obsidian/handshake.go:289-357 | the server opens the identity exactly as the client sealed it |
| `Handshake.HonestIsAdmitted` | obsidian/handshake.go:516-686 | an allowed client with a fresh stamp is admitted |
| `Handshake.ReplyIsAccepted` | obsidian/handshake.go:360-454 | the client accepts the reply, with the same keys and mirrored framers |
| `Handshake.ReplyAcceptedExactly` | obsidian/handshake.go:360-454 | for every reply: a client accepts it if and only if its sealed part is the seal, under the keys its fields lead to, of magic, session id and a code under the exchange with the known server key over both ephemeral keys, salt and session id; and with which keys and framer |
| `Handshake.HonestRunSucceeds` | obsidian/handshake.go:289-686 | for all random choices and clocks within tolerance, both ends accept, hold the same keys, and each encrypts what the other decrypts |
| `Handshake.AcceptedExactly` | obsidian/handshake.go:516-686 | for every hello: a server accepts it if and only if its sealed part is the seal of an identity with a fresh stamp, an allowed key, and a code under the static exchange over magic, ephemeral key, encapsulation key, salt and stamp, and it can be answered |
| `Handshake.AcceptedIsBuilt` | obsidian/handshake.go:289-686 | of all hellos that carry a client's own keys and salt, the server accepts exactly those with the fields this client builds at a time within the tolerance |
| `Handshake.ClientHandshake.ProcessReply` | obsidian/handshake.go:360-454 | accepts exactly the confirmed replies, keeps derived keys even after a refusal, and zeroes the ephemeral key pair on acceptance |
| `Handshake.ServerHandshake.ProcessHello` | obsidian/handshake.go:516-686 | reply and framer exactly for accepted hellos, a bad encapsulation key refused; what the object keeps in every case, and that the ephemeral pair is zeroed exactly on acceptance |
| `Session.StreamDelivers` | cmd/server/main.go:378-399 | junk, hello frame and packets in one stream: the scanner finds the hello and the rest is read as the messages |
| `Session.HonestIsEstablished` | cmd/server/main.go:378-410 | an honest run leaves both ends with valid framers that are each other's inverse |
| `Session.HonestSessionDelivers` | obsidian/client/engine.go:489-508 | a whole session from the first byte, both directions: hellos are found behind junk and every message arrives once, in lock order |
| `Session.SealsRepeatExactly` | obsidian/handshake.go:636-677 | of all key and nonce pairs the server seals with, exactly the confirmation's and the first frame's are equal, so a pair repeats if and only if the server sends a frame |
| `RateLimiter.IPRateLimiter.constructor` | obsidian/ip_rate_limiter.go:26-42 | defaults for non-positive parameters and an empty table |
| `RateLimiter.IPRateLimiter.AllowAddr` | obsidian/ip_rate_limiter.go:46-83 | the table loop and token arithmetic are the specified step; an invalid address is allowed and changes nothing |
| `RateLimiter.EvictionIsInvisible` | obsidian/ip_rate_limiter.go:46-83 | from every related state, the evicting limiter answers every run as one that never evicts |
| `RateLimiter.EvictionShows` | obsidian/ip_rate_limiter.go:46-83 | with a larger burst a concrete run is answered differently |
| `RateLimiter.EvictionIsInvisibleExactly` | obsidian/ip_rate_limiter.go:46-83 | eviction changes no answer of any run if and only if buckets refill in time |
| `RateLimiter.AllowedIsPaid` | obsidian/ip_rate_limiter.go:66-83 | allowed calls are paid for by the level and the elapsed time |
| `RateLimiter.RateBound` | obsidian/ip_rate_limiter.go:46-83 | from every related state, at most burst + rate * T calls of one address in a window of T |
| `RateLimiter.EveryWindow` | obsidian/ip_rate_limiter.go:46-83 | the bound for every window of every run of a new limiter |
| `RateLimiter.EveryWindowExactly` | obsidian/ip_rate_limiter.go:46-83 | every window of every run is within the bound if and only if buckets refill in time |
| `RateLimiter.AllowedExactly` | obsidian/ip_rate_limiter.go:46-83 | for every run of a new limiter whose buckets refill in time: a call is allowed if and only if every window that ends with it then holds at most burst + rate * T allowed calls of its address |
| `RateLimiter.ProbeIsAllowed` | obsidian/ip_rate_limiter.go:46-83 | a run that is allowed two full bursts within ten seconds and a nanosecond |
| `RateLimiter.EveryRefillIsSmall` | obsidian/ip_rate_limiter.go:46-83 | at every call of every ordered run of a new limiter, a refill spans less than eleven seconds and the token arithmetic stays within 64 bits |
| `ReplayCache.HandshakeReplayCache.constructor` | cmd/server/main.go:489-491 | an empty cache with its retention |
| `ReplayCache.HandshakeReplayCache.Seen` | cmd/server/main.go:493-513 | lookup, purge and insertion are the specified step |
| `ReplayCache.PurgedExactly` | cmd/server/main.go:500-508 | beyond 4096 entries exactly the expired ones are dropped |
| `ReplayCache.EntryIsKept` | cmd/server/main.go:493-513 | an entry survives every lookup and purge until it expires |
| `ReplayCache.PurgingIsInvisible` | cmd/server/main.go:493-513 | a hello passes the cache if and only if no earlier passing attempt with its digest is still within the retention, so purging shows nowhere |
| `ReplayCache.FreshTwice` | obsidian/handshake.go:588-592 | two fresh verdicts on one stamp are at most 60 seconds apart |
| `ReplayCache.AtMostOnce` | cmd/server/main.go:378-399 | over every run of prompt checks the same hello bytes pass both tests at most once |
| `ReplayCache.SlowCheckPassesTwice` | cmd/server/main.go:378-399 | for every stamp a clock can show, a run with a delay of a full minute in which one hello passes twice |
| `ReplayCache.DelayBoundIsExact` | cmd/server/main.go:378-399 | a delay bound ensures at-most-once in every run if and only if it is at most 60 seconds |
| `RoutePlan.MaskedCovers` | obsidian/tun/plan.go:55-65 | masking changes no membership and is idempotent |
| `RoutePlan.NormalizedMappedCovers` | obsidian/tun/plan.go:55-65 | a normalised mapped prefix covers an IPv4 address iff the prefix covers its mapped form |
| `RoutePlan.NormalizedCovers` | obsidian/tun/plan.go:55-65 | any other prefix covers the same addresses after normalising |
| `RoutePlan.CoversExactly` | obsidian/tun/plan.go:55-65 | a prefix covers exactly the addresses of its family that agree in every bit but the host bits |
| `RoutePlan.MaskedBits` | obsidian/tun/plan.go:55-65 | masking clears exactly the host bits |
| `RoutePlan.SplitCoversExactly` | obsidian/tun/plan.go:145-166 | the split prefixes cover exactly the addresses the entries mean, mapped prefixes read as IPv4, without IPv6 unless it is enabled |
| `RoutePlan.SplitPrefixes` | obsidian/tun/plan.go:145-166 | the loop collects exactly the kept prefixes of the entries |
| `RoutePlan.AddAll` | obsidian/tun/plan.go:121-132 | adds exactly the missing, not skipped prefixes, without duplicates |
| `RoutePlan.PlanRoutes` | obsidian/tun/plan.go:115-199 | both route lists are duplicate free and contain exactly the specified prefixes |
| `RoutePlan.ServersBypass` | obsidian/tun/plan.go:115-199 | in every mode, longest-prefix routing sends server addresses to the gateway |
| `RoutePlan.FullModeTunnels` | obsidian/tun/plan.go:115-199 | full mode: every other address is tunnelled |
| `RoutePlan.IncludeModeTunnels` | obsidian/tun/plan.go:115-199 | include mode: an address is tunnelled iff an entry covers it or it is the resolver, and no route sends it to the gateway |
| `RoutePlan.ExcludeModeBypasses` | obsidian/tun/plan.go:115-199 | exclude mode: an address bypasses iff an entry of at least two bits covers it, and is tunnelled iff no entry of at least one bit does |
| `RoutePlan.ExcludeModeDns` | obsidian/tun/plan.go:115-199 | exclude mode: the resolver is tunnelled unless its own host prefix is an entry |
| `RouteManager.StepKeeps` | obsidian/tun/routemgr.go:218-271 | every operation keeps: no route is installed twice, the list holds exactly the successful adds, and after close the commands end with one delete per installed route, last first |
| `RouteManager.EveryRunKeepsInv` | obsidian/tun/routemgr.go:218-271 | the same over every interleaving of refreshes and close |
| `RouteManager.ApplyOrder` | obsidian/tun/routemgr.go:218-231 | gateway routes are added before tunnel routes, and a closed manager adds none |
| `RouteManager.AddManyInstalls` | obsidian/tun/routemgr.go:218-243 | exactly the routes that were there or that the system accepts are installed |
| `RouteManager.ApplyInstalls` | obsidian/tun/routemgr.go:218-243 | a refresh before close leaves installed exactly what was installed or what the plan asks for in either list and is not refused |
| `RouteManager.CloseRemovesAll` | obsidian/tun/routemgr.go:252-271 | every run with a close, refreshes before and between its critical sections and anything after: nothing stays installed, and the log grows by exactly one delete per installed route, last first |
| `RouteManager.Manager.constructor` | obsidian/tun/routemgr.go:218-243 | an open manager without routes |
| `RouteManager.Manager.AddLocked` | obsidian/tun/routemgr.go:233-243 | one route is added once, and recorded only if the system accepted it |
| `RouteManager.Manager.AddAll` | obsidian/tun/routemgr.go:225-230 | the loop over one list is the specified step |
| `RouteManager.Manager.ApplyPlan` | obsidian/tun/routemgr.go:218-231 | applying a plan is the specified step, refused once closed |
| `RouteManager.Manager.Mark` | obsidian/tun/routemgr.go:253-261 | only the first close goes on |
| `RouteManager.Manager.DeleteBackwards` | obsidian/tun/routemgr.go:266-268 | the loop issues one delete per installed route, last first |
| `RouteManager.Manager.RemoveAll` | obsidian/tun/routemgr.go:264-270 | list and set are empty, and the log has grown by one delete per route, the last one first |
| `Ipv6Reject.FindUpperLayer` | obsidian/ipv6_reject.go:52-63 | the loop returns what WalkExactly characterises |
| `Ipv6Reject.WalkExactly` | obsidian/ipv6_reject.go:52-63 | the upper layer is found if and only if the bytes up to it are a list of extension headers as a sender writes them |
| `Ipv6Reject.AnswerableExactly` | obsidian/ipv6_reject.go:40-50 | an if-and-only-if over the bytes of the header |
| `Ipv6Reject.ResetExactly` | obsidian/ipv6_reject.go:64-100 | a reset answers exactly complete TCP headers without RST |
| `Ipv6Reject.UnreachableExactly` | obsidian/ipv6_reject.go:64-76 | an unreachable message answers exactly the other upper layers but ICMPv6 errors |
| `Ipv6Reject.PseudoHeaderSum` | obsidian/ipv6_reject.go:169-182 | the pseudo sum is the word sum of the pseudo-header of RFC 8200 |
| `Ipv6Reject.ChecksummedVerifies` | obsidian/ipv6_reject.go:169-182 | a filled-in checksum verifies over the pseudo-header |
| `Ipv6Reject.ResetIsCorrect` | obsidian/ipv6_reject.go:78-135 | addresses and ports exchanged, fixed fields, the sequence number acknowledged or else payload, SYN and FIN acknowledged, lengths consistent, the checksum verifies |
| `Ipv6Reject.UnreachableIsCorrect` | obsidian/ipv6_reject.go:137-155 | an unreachable message has type and code of section 3.1 of RFC 4443, quotes as much as fits the minimum MTU, and verifies |
| `Ipv6Reject.RepliesAreNotAnswered` | obsidian/ipv6_reject.go:40-155 | no reply is ever answered, so two rejecting ends cannot loop |
| `Ipv6Reject.UnspecifiedExactly` | obsidian/ipv6_reject.go:40-155 | a reply never goes to an unspecified or multicast address, and comes from an unspecified one if and only if the packet was sent to one |
| `Ipv6Reject.UnspecifiedIsAnswered` | obsidian/ipv6_reject.go:40-50 | a UDP packet to the unspecified address that is answered |
| `Ipv6Reject.Ipv6Checksum` | obsidian/ipv6_reject.go:169-193 | the loop computes the pseudo-header checksum |
| `Ipv6Reject.WriteReply` | obsidian/ipv6_reject.go:157-182 | header, segment and checksum are written, the rest of the buffer is untouched |
| `Ipv6Reject.BuildIPv6Reject` | obsidian/ipv6_reject.go:40-73 | the reply is written exactly when one is due and the buffer is large enough; otherwise the buffer is untouched |

## Left out

- ReplayWindow.Window.Check: does not take the counter 2^64 - 1 when it is less than a window ahead, because the loop in the code does not end there.
- UdpChannel.Channel.Receive: has the same restriction, because it calls Check.
- UdpNetwork.DeliveredExactly: for sends within one epoch, of packets that do not look like a STUN or SRTP header, read at one moment of a ratchet; SentDecodes covers torn sends and torn reads. At a server it assumes that the one ciphertext opens under no other key of the session, because its table keeps the tags of all earlier epochs and tries them with the current key.
- RateLimiter.IPRateLimiter.AllowAddr: uses unbounded token arithmetic; EveryRefillIsSmall gives the parameters for which 64 bits are enough.
- Tunnel.Endpoint.RecvLoop: the number of rounds before expiry and the number of payloads the reader takes are parameters, because writers count packets too and the reader is another goroutine.
- Handshake.AcceptedIsBuilt: for identities of the length a client builds; the server ignores bytes behind them.
- Handshake.HonestRunSucceeds: clocks are below 2^62 seconds, which every clock is.
- StreamFramer.Choose: padding settings are not negative.
- RoutePlan.PlanRoutes: takes parsed entries and resolved addresses; parsing of entry strings and name resolution are not modelled.
- The Scheduler and UdpNetwork machines are on values, because their goroutines interleave at every operation; in-place update and aliasing of pooled buffers are not captured there.
- Cryptographic primitives and constant-time comparison: they enter as functions with laws.
- Transports, TLS mimicry, sockets, junk generation and timing jitter.
- The shards of the UDP session table, which only speed up a lookup.
- Configuration files, share links, profiles, revocation lists, cookies and the command line tools.
- Logging, statistics, buffer pools, deadlines and the limiter in front of IPv6 rejection.
