# pylrkproxy: a verified model of the RTP relay

pylrkproxy relays RTP between two parties of a call. A request travels through three stages:

1. **Python** (`lib/service`) accepts `S` (set up) and `D` (tear down) lines on a UDP socket. Two
   identical batching consumers, chained by queues, hand them on to a UNIX socket.
2. **A user-space C process** (`lib/c/user_space.o`) reads each line into one buffer, writes the
   buffer to a pipe and forks. The child takes a block, may replace the two client ports of an `S`
   by the ports it sees packets come from, and sends the line to the kernel.
3. **A kernel module** (`lib/c/kernel_space.ko`) parses the line into two NAT entries in a hash
   table of 2^20 chains, and rewrites UDP packets in two netfilter hooks.

The project models all three and proves what they do together: which entry a request becomes, when
a call is relayed, what tear-down leaves behind, and in what order requests arrive.

## Files

| file | content |
|---|---|
| `Words.dfy` | 16/32-bit network words, byte swaps, the wrapping hash key |
| `Text.dfy` | `strsep`, `strtok`, `split`, `join`, reprinting, decimal numbers, dotted addresses |
| `Chains.dfy` | bucket chains: history, oldest entry, tear-down, independence of interleavings |
| `NatTable.dfy` | the kernel's parser, its table and its blocks (class `Kernel`) |
| `Checksum.dfy` | the internet checksum of RFC 1071 |
| `Hooks.dfy` | the netfilter hooks on a packet (class `Packet`) and the relay of a call |
| `Requests.dfy` | well-formed requests and the entry they describe |
| `UserSpace.dfy` | the reused buffer, learned ports, the child |
| `LineMeaning.dfy` | what a line means to the kernel after the child |
| `ForkPipe.dfy` | parent, children, pipe and kernel as a protocol of atomic steps |
| `Pipeline.dfy` | UDP dispatch and the two batching consumers (class `Consumer`) |
| `Continuations.dfy` | which continuations a reachable state has: going on, overtaking, repetition |
| `EndToEnd.dfy` | the three stages composed |
| `Repetition.dfy` | how often an accepted request is performed |

`hash_min` is an arbitrary function into the buckets. Read results, arrivals, clocks, failed forks,
send failures, observed packets, allocation results and the values of unset variables are arbitrary
parameters. A *well-formed request* has 12 clean ASCII fields in the layout of `README.md:67`, single
spaces, decimal octets and ports, and at most 1023 bytes.

## What turns out not to hold

- **A call is not always relayed.** The hooks follow the oldest entry of a whole bucket, so a set-up
  relays its call exactly when the deciding entry of both buckets has the call's own targets
  (`SetupRelaysIff`, over whole runs `CallIsRelayedIff`). A call whose two keys share a bucket
  already breaks on an empty table, unless both directions have one target; with equal keys, as for
  two parties behind one address with equal relay ports, it does so for every hash function
  (`SharedBucketMisroutes`).
- **The `D` of one call can stop another.** A `D` empties whole buckets, so a call that shares one
  loses the direction looked up there; that direction works afterwards only if it needs no rewriting
  (`OtherTeardownStops`).
- **A signalled address with leading zeros never learns a port.** `sockbind` compares texts, so a
  packet from `1.1.1.1` does not match `01.1.1.1` (`SignalledIff`).
- **A `D` may overtake its `S`.** The Python stages keep the order, but the child of an `S` waits for
  packets while the child of the `D` does not. What is read next can reach the kernel before an
  earlier block exactly when the pipe has room, the earlier block's child has not yet sent or died,
  and both blocks can be delivered at all (`OvertakingIff`, for a call `CallOvertakenIff`), and so
  already for the first call of a fresh process (`FirstCallMayBeOvertaken`). Overtaken, the torn-down
  call stays in the table (`TeardownMayOvertake`); what is delivered keeps its place
  (`DeliveredStaysFirst`).
- **A short request after one with a long id runs past the child's array.** The buffer keeps the
  rest of the earlier request, and the next one's text then has 23 tokens for an array of 15
  (`LongIdBreaksNext`); such an earlier request exists for every request of up to 511 bytes
  (`AnyShortRequestCanBreak`). A well-formed request is taken apart within the arrays exactly when
  the left-over text adds at most three tokens (`TokenisableIff`), so always when nothing longer was
  read before (`LongestIsTokenisable`).
- **A message of 1024 bytes spoils every later block.** It takes the buffer's final NUL away, so that
  each later child runs past its arrays, and no block written from then on is delivered properly
  until a message with a NUL is read (`FullMessageSilences`); without NULs read, the buffer is
  terminated exactly as long as every message was shorter (`TerminatedIff`).
- **An accepted request can be performed more than once.** When the peer closes, `read` returns 0 for
  ever, and the parent writes the old buffer and forks each time. No block is delivered twice, so two
  delivered lines are one accepted request if and only if only empty reads lie between their blocks
  (`PerformedTwiceIff`, `PerformedOnce`). With empty reads only, the last block is delivered again,
  once or any number of times, exactly when the pipe has room and the block can be delivered
  (`RepeatsIff`); with memory an `S` then adds its two entries each time (`LastRequestRepeats`,
  `RepeatedSetupGrows`).
- **A request with exactly 11 fields ends the first consumer** (`QueuedRaisesIff`, `DrainsExactly`), and
  so does one of twelve with an empty field, which counts as eleven (`EmptyFieldRaises`).
- **A failed fork leaves its block in the pipe for good**: later children lag behind by one block
  per failure (`PipeProtocol`), and the process can write or take another block exactly while fewer
  forks have failed than the pipe holds blocks (`GoesOnIff`, `FullPipeStalls`, `StallIsReachable`).
- **POSTROUTING changes the source address of every UDP packet**, matched or not
  (`MainHookPost`, `TeardownStopsRelay`), although its comment speaks of packets from the LAN only. A
  packet passes both hooks unchanged only if its bucket's oldest entry maps it to itself
  (`UnchangedIff`).
- **A zero UDP checksum is stored as zero**, where RFC 768 asks for all ones; receivers take it as
  "no checksum" (`UpdateChecksums`). Whatever the header and the rest of the payload, some last word
  makes it so (`SomeChecksumIsZero`).
- **A failed second allocation leaks the first block** (`BlockConservation`, `Exit`).

## Model

| member | source | states |
|---|---|---|
| Words.KeysCollideIff | lib/c/kernel_space.ko/lrkproxy_module.c:140-143 | the key tells ports apart for one address and addresses apart for one port; two addresses can share a key exactly when their words lie within 65535 of each other around 2^32 |
| Words.Swap16Bytes | lib/c/kernel_space.ko/lrkproxy_module.c:293-320 | `htons` exchanges the two bytes of a word |
| Words.Swap32Bytes | lib/c/kernel_space.ko/lrkproxy_module.c:272-287 | `htonl` reverses the four bytes of a word |
| Words.SwapsAreInvolutions | lib/c/kernel_space.ko/lrkproxy_module.c:293-320 | swapping bytes twice gives the word back, so no address or port is lost in an entry |
| Words.HtonsTruncates | lib/c/kernel_space.ko/lrkproxy_module.c:293-320 | `htons` of any number looks at its low 16 bits only |
| Words.FlipLowBit | lib/c/kernel_space.ko/lrkproxy_module.c:199 | `^ 1` changes the lowest bit of an address word and no other |
| Text.ReprintRoundTrip | lib/c/user_space.o/user_space.c:239-265 | for any text, `strsep` over the reprint of its `strtok` tokens gives those tokens and one final empty one |
| Text.StrTokIsNonEmptySplit | lib/c/user_space.o/user_space.c:239-243 | `strtok` yields exactly the non-empty `strsep` pieces in order |
| Text.RawLineReadsAlikeIff | lib/c/kernel_space.ko/lrkproxy_module.c:264-265 | the kernel's `strsep` of a raw line agrees with `strtok` if and only if the line is single-spaced without space at either end |
| Text.JoinSplit | lib/service/session_controller_service.py:104-123 | splitting a request at spaces and joining it again changes nothing |
| Text.IpModulo | lib/c/kernel_space.ko/lrkproxy_module.c:113-121 | `ip_asc_to_int` adds up four octets of any size by their places, modulo 2^32, whatever text follows them |
| Text.ScanNeedsDots | lib/c/kernel_space.ko/lrkproxy_module.c:113-121 | `sscanf` fills `n` octets only of a text with at least `n - 1` dots |
| Text.DottedRoundTrip | lib/c/kernel_space.ko/lrkproxy_module.c:113-121 | `ip_asc_to_int` recovers any address from its dotted text, whatever other text follows the last digit |
| Text.DottedInjective | lib/c/user_space.o/user_space.c:85-88 | `strcmp` on dotted texts decides equality of the addresses |
| Text.KstrtointSigned | lib/c/kernel_space.ko/lrkproxy_module.c:293-320 | `kstrtoint` takes a sign and one final newline |
| Chains.HistoryRefinement | lib/c/kernel_space.ko/lrkproxy_module.c:340-407 | after any messages a chain is exactly the entries pushed since the last clearing of its bucket, newest first, in front of the earlier content if nothing cleared it |
| Chains.OldestSurvives | lib/c/kernel_space.ko/lrkproxy_module.c:391-407 | set-ups never displace a bucket's oldest entry; only a `D` on the bucket does |
| Chains.TeardownUndoesSetup | lib/c/kernel_space.ko/lrkproxy_module.c:335-407 | set-up then tear-down with the same keys empties both buckets and changes no other, and restores the table exactly when both were empty; in the other order the entries stay |
| Chains.InterleavingIndependence | lib/c/kernel_space.ko/lrkproxy_module.c:335-407 | two orders of the same messages that agree on messages sharing a bucket end in the same table |
| NatTable.ParseLine | lib/c/kernel_space.ko/lrkproxy_module.c:264-332 | the `strsep` loop computes the assignments of the pieces of the line one after the other |
| NatTable.ReceiveConserves | lib/c/kernel_space.ko/lrkproxy_module.c:335-407 | every message keeps each block linked at most once, and the live blocks the linked and the leaked ones |
| NatTable.BlockConservation | lib/c/kernel_space.ko/lrkproxy_module.c:340-375 | in every run with any allocation failures the live blocks are the linked ones, none twice, and one more per failed second allocation |
| NatTable.EntriesRun | lib/c/kernel_space.ko/lrkproxy_module.c:363-407 | the addresses the allocator hands out never matter to the table |
| NatTable.Kernel.constructor | lib/c/kernel_space.ko/lrkproxy_module.c:515 | the table starts with every bucket empty and no block in use |
| NatTable.Kernel.DeleteBucket | lib/c/kernel_space.ko/lrkproxy_module.c:340-355 | the delete loop empties one bucket, frees each of its blocks once and changes nothing else |
| NatTable.Kernel.RecvMsg | lib/c/kernel_space.ko/lrkproxy_module.c:210-473 | a message changes table and blocks exactly as its decoded request says, with either allocation failing |
| NatTable.Kernel.Exit | lib/c/kernel_space.ko/lrkproxy_module.c:527-531 | the sweep leaves the table empty and only the leaked blocks live |
| Hooks.MirrorSwapsEnds | lib/c/kernel_space.ko/lrkproxy_module.c:395-402 | the second entry is that of the same call seen from the other end, field by field |
| Checksum.StoredComplementVerifies | lib/c/kernel_space.ko/lrkproxy_module.c:97-106 | storing the complement in the checksum word makes the whole verify, and any other word that verifies is the same number modulo 65535 |
| Hooks.IpVerifiesIff | lib/c/kernel_space.ko/lrkproxy_module.c:98-99 | the IPv4 header verifies if and only if all its fields, each by its place in memory, add up to a positive multiple of 65535 |
| Hooks.UdpVerifiesIff | lib/c/kernel_space.ko/lrkproxy_module.c:101-105 | the same for the datagram with its pseudo-header, the length counted twice |
| Hooks.IpFieldDecides | lib/c/kernel_space.ko/lrkproxy_module.c:98-99 | of two verifying headers that differ in one field only, that field is the same, a full word up to the two forms of zero |
| Hooks.UdpFieldDecides | lib/c/kernel_space.ko/lrkproxy_module.c:101-105 | the same for each field of a datagram |
| Hooks.Packet.UpdateChecksums | lib/c/kernel_space.ko/lrkproxy_module.c:85-109 | afterwards the IPv4 header checksum verifies, and the UDP checksum over the IP payload length, both also stated as sums of the fields |
| Hooks.UnchangedIff | lib/c/kernel_space.ko/lrkproxy_module.c:124-206 | a UDP packet passes both hooks unchanged if and only if its bucket's oldest entry has exactly its endpoints |
| Hooks.OtherTeardownStops | lib/c/kernel_space.ko/lrkproxy_module.c:340-355 | after any `D` on one of a call's buckets the direction looked up there works if and only if it needs no rewriting |
| Hooks.SomeChecksumIsZero | lib/c/kernel_space.ko/lrkproxy_module.c:97-106 | whatever the header and the rest of the payload, some last payload word makes the stored UDP checksum zero |
| Hooks.MainHookPre | lib/c/kernel_space.ko/lrkproxy_module.c:124-164 | overwriting the packet for each entry equals one rewrite by the oldest entry of its bucket: its four fields, the source address with the lowest bit changed, and valid checksums; an empty bucket or another protocol leaves the packet alone |
| Hooks.MainHookPost | lib/c/kernel_space.ko/lrkproxy_module.c:167-206 | every UDP packet leaves with the lowest bit of its source address word changed, nothing else in its addresses and ports, and valid checksums |
| Hooks.ThroughMatched | lib/c/kernel_space.ko/lrkproxy_module.c:147-199 | a matched packet leaves both hooks with exactly the endpoints of the deciding entry: the two flips cancel |
| Hooks.SetupRelaysIff | lib/c/kernel_space.ko/lrkproxy_module.c:147-159 | over any table and through any later messages, until a `D` clears one of its buckets, both directions of a call work if and only if at its set-up the deciding entries of its two buckets have the call's own targets |
| Hooks.SharedBucketMisroutes | lib/c/kernel_space.ko/lrkproxy_module.c:391-407 | over an empty table a call whose two keys share a bucket is relayed if and only if both directions have one target; a concrete call with equal keys is relayed under no hash function |
| Hooks.RelayRoundTrip | lib/c/kernel_space.ko/lrkproxy_module.c:143-199 | a call set up in two distinct empty buckets is relayed in both directions, the reply with exactly reversed endpoints, through any later messages until a `D` clears one of them |
| Hooks.LaterCallsChangeNothing | lib/c/kernel_space.ko/lrkproxy_module.c:147-159 | later set-ups on an occupied bucket change no forwarding before a `D` clears it |
| Hooks.TeardownStopsRelay | lib/c/kernel_space.ko/lrkproxy_module.c:167-206 | after its `D`, through any later messages on other buckets, a call's packets are no longer matched, yet still leave with the lowest bit of the source address word changed |
| Requests.ParseUsable | lib/c/kernel_space.ko/lrkproxy_module.c:266-330 | from well-formed fields the parser stores exactly their addresses and ports and their two keys, whatever was in the variables before |
| Requests.AddressInMemory | lib/c/kernel_space.ko/lrkproxy_module.c:113-121 | the word of an address holds its octets in the order written, lowest byte first |
| Requests.PortInMemory | lib/c/kernel_space.ko/lrkproxy_module.c:290-320 | the word of a port holds its high byte first |
| Requests.ParsedInMemory | lib/c/kernel_space.ko/lrkproxy_module.c:266-386 | the entry stored for a request holds, byte by byte in network order, the eight addresses and ports written in it |
| Requests.BadPortRepeats | lib/c/kernel_space.ko/lrkproxy_module.c:290-320 | a port that `kstrtoint` cannot read takes the value of the port before it |
| UserSpace.ReadInto | lib/c/user_space.o/user_space.c:191-199 | a read replaces the front of the buffer and keeps the bytes behind it |
| UserSpace.StaleTail | lib/c/user_space.o/user_space.c:191-210 | over any reads without NUL bytes, empty ones included, the buffer's text is the last message that was not empty and a tail up to the length of the longest one |
| UserSpace.CurrentInFront | lib/c/user_space.o/user_space.c:191-210 | over any reads at all the buffer starts with the last message that was not empty, and so does its text unless that message holds a NUL |
| UserSpace.TerminatedIff | lib/c/user_space.o/user_space.c:191-210 | without NUL bytes read, the buffer ends in NUL if and only if no message had 1024 bytes |
| UserSpace.SignalledIff | lib/c/user_space.o/user_space.c:84-93 | for an address in decimal octets the textual comparison succeeds if and only if the packet came from that address and no octet has leading zeros |
| UserSpace.Sockbind | lib/c/user_space.o/user_space.c:25-97 | for a signalled address in decimal octets the leg's port becomes the observed number if and only if the packet came from that address and no octet was written with leading zeros, and stays as signalled otherwise; a failed bind ends the child |
| UserSpace.Tokenise | lib/c/user_space.o/user_space.c:235-243 | the `strtok` loop fills the array with exactly the tokens of the text |
| UserSpace.Child | lib/c/user_space.o/user_space.c:222-285 | the child sends the reprint with the two learned ports for an `S`, the raw line otherwise, and nothing if a bind fails |
| UserSpace.ReprintFits | lib/c/user_space.o/user_space.c:261-267 | for texts of up to 1014 bytes the reprint stays inside its 1024 bytes, whatever ports are learned |
| UserSpace.SendsIff | lib/c/user_space.o/user_space.c:235-271 | some behaviour of the legs makes the child send if and only if it can take the text apart within its arrays and, for an `S`, the shortest possible reprint fits |
| LineMeaning.SignalledAddress | lib/c/user_space.o/user_space.c:84-93 | for a canonical address the textual comparison asks whether the packet came from that address |
| LineMeaning.LearnedInMemory | lib/c/user_space.o/user_space.c:84-93 | the port kept for a leg lies in the entry in network order, learned or signalled |
| LineMeaning.StaleTailIndependence | lib/c/user_space.o/user_space.c:228-243 | no text left behind a 12-field line can change its first 11 tokens, for `strtok` or `strsep` |
| LineMeaning.TokenisableIff | lib/c/user_space.o/user_space.c:235-251 | a well-formed request with left-over text behind it stays within the child's arrays if and only if both have less than 1024 bytes and that text adds at most three tokens |
| LineMeaning.LongestIsTokenisable | lib/c/user_space.o/user_space.c:191-251 | a well-formed request no shorter than anything read before it stands alone in the buffer and stays within the arrays |
| LineMeaning.LongIdBreaksNext | lib/c/user_space.o/user_space.c:199-243 | after a request whose id is at least as long as the next request, the next one's text has 23 tokens |
| LineMeaning.AnyShortRequestCanBreak | lib/c/user_space.o/user_space.c:199-243 | every well-formed request of up to 511 bytes has an earlier well-formed one after which it leaves the arrays |
| LineMeaning.DeliversIff | lib/c/user_space.o/user_space.c:235-271 | a child can send something for a well-formed request and the text behind it if and only if both have less than 1024 bytes, that text adds at most three tokens and, for an `S` of 1023 bytes, the shortest reprint fits |
| LineMeaning.SetupMeaning | lib/c/user_space.o/user_space.c:245-267 | an `S` line, followed by any stale text, reaches the kernel as the requested entry with the learned ports under the keys of the request alone, or not at all exactly when a bind fails |
| LineMeaning.TeardownMeaning | lib/c/user_space.o/user_space.c:268-271 | a `D` line, followed by any stale text, releases those same two keys |
| ForkPipe.PipeProtocol | lib/c/user_space.o/user_space.c:196-224 | in every reachable state `failed` is the number of failed forks and the children waiting or past their take are the successful ones; the pipe holds one block per waiting child, failed fork and open write; blocks are taken in write order; no waiting child finds it empty; with none waiting the newest blocks, one per failed fork, are untaken |
| ForkPipe.RunLogs | lib/c/user_space.o/user_space.c:196-287 | the messages are exactly those read, and the lines in the kernel exactly those the children sent, both in order |
| ForkPipe.BusyUntilEnd | lib/c/user_space.o/user_space.c:220-287 | a child is at work from its take until its one send or its death |
| ForkPipe.FateOfBlock | lib/c/user_space.o/user_space.c:220-287 | a block is in the kernel if and only if its child sent, and never if its child died |
| ForkPipe.FullPipeStalls | lib/c/user_space.o/user_space.c:210-217 | once failed forks fill the pipe, no continuation writes or takes a block (`GoesOnIff` has the converse) |
| ForkPipe.DeliveredInOrder | lib/c/user_space.o/user_space.c:220-287 | in every interleaving each block is delivered at most once, as its child's line, and the table equals processing the delivered lines one by one |
| ForkPipe.RunsAgree | lib/c/user_space.o/user_space.c:196-287 | two runs delivering the same messages in orders that agree within buckets leave the same table |
| ForkPipe.TakenHoldsRead | lib/c/user_space.o/user_space.c:199-224 | in every run the i-th block taken starts with the last non-empty message among the first i + 1 reads, and so does its text unless that message holds a NUL |
| ForkPipe.RequestReachesKernel | lib/c/user_space.o/user_space.c:196-287 | in every run a well-formed request that reaches the kernel adds exactly its call's entry or releases exactly its keys |
| ForkPipe.EmptyReadsRepeat | lib/c/user_space.o/user_space.c:199-217 | in every run a block written after empty reads makes the kernel perform the last well-formed request again |
| ForkPipe.FullMessageSilences | lib/c/user_space.o/user_space.c:199-224 | in every run, after a message of 1024 bytes without NUL no block is delivered by a child that stays within its arrays, until a message with a NUL has been read |
| Continuations.RunGrows | lib/c/user_space.o/user_space.c:196-287 | no continuation forgets or reorders what was read, written, taken or sent, and only blocks whose children had not sent are delivered later |
| Continuations.GoesOnIff | lib/c/user_space.o/user_space.c:196-224 | from any reachable state another block can be written, and another taken, if and only if fewer forks have failed than the pipe holds blocks |
| Continuations.StallIsReachable | lib/c/user_space.o/user_space.c:210-217 | a run exists, for any capacity, after which the process never writes again |
| Continuations.DeathSilences | lib/c/user_space.o/user_space.c:220-287 | a child at work may die at any time, and no continuation delivers its block |
| Continuations.OvertakingIff | lib/c/user_space.o/user_space.c:196-287 | from any reachable state a request read now can be delivered before an earlier one if and only if the pipe has room, the earlier one's child has neither sent nor died, and both blocks can be delivered |
| Continuations.DeliveredStaysFirst | lib/c/user_space.o/user_space.c:213-287 | in every continuation a delivered line keeps its place, before every block written later |
| Continuations.RepeatsIff | lib/c/user_space.o/user_space.c:196-217 | from any reachable state between two reads, empty reads alone can deliver the last block again, once or any number of times, if and only if the pipe has room and the block can be delivered |
| Pipeline.QueuedRaisesIff | lib/service/session_controller_service.py:137-145 | a clean `S` or `D` line is queued, and `get_call_id` raises on it exactly when it has 11 fields |
| Pipeline.DispatchIff | lib/service/udp_socket_service.py:33-63 | a line of clean fields is queued exactly for `S` and `D`, and answered exactly for `P` and `G` |
| Pipeline.FieldsOf | lib/service/session_controller_service.py:137-145 | the fields of any datagram: white space around it is ignored, and each empty piece behind a kept one is dropped |
| Pipeline.EmptyFieldRaises | lib/service/session_controller_service.py:137-145 | an `S` or `D` of twelve fields with one behind the command empty is queued, and its handler raises |
| Pipeline.PassKeepsOrder | lib/service/session_controller_service.py:27-52 | one pass of the consumer loop loses, repeats and reorders nothing and strands no batch |
| Pipeline.PassDoes | lib/service/session_controller_service.py:27-52 | one pass keeps the batch while it is less than a second old and others wait, and else hands all of it on, up to the first request that raises |
| Pipeline.AgeRule | lib/service/session_controller_service.py:34-43 | over all runs the age is counted from the `get` that began the batch, in both consumers |
| Pipeline.Consumer.Turn | lib/service/session_controller_service.py:27-52 | the loop body, with arrivals in between, has exactly the effect of its atomic actions |
| Pipeline.TwoStageOrder | lib/service/unix_socket_client_service.py:128-174 | in every run the accepted requests are exactly the `S` and `D` datagrams that arrived, and consist of those handled, then those in the batches and queues, in arrival order; what was sent is an order-preserving subsequence of unchanged strings, lacking exactly the failed sends |
| Pipeline.NoStrandedBatch | lib/service/unix_socket_client_service.py:134-159 | a consumer waiting on an empty queue has an empty batch |
| Pipeline.DrainEnds | lib/service/unix_socket_client_service.py:132-159 | without arrivals every run of the consumers ends within a bound computed from queues and batches |
| Pipeline.DrainsExactly | lib/service/session_controller_service.py:23-58 | when no consumer can act, everything that arrived before the first 11-field request has been handed on in order; everything, with all queues and batches empty, if and only if there is none |
| EndToEnd.ParsedKeysMatchPackets | lib/c/kernel_space.ko/lrkproxy_module.c:143-312 | the two keys parsed from a line are those its call's packets are looked up with: any packet with the bytes of the signalled address and port |
| EndToEnd.AcceptedReachesKernel | lib/service/udp_socket_service.py:48-63 | over any reads of what was sent and any empty reads, every line in the kernel comes from an accepted datagram, in the order of acceptance per block, and does exactly what a well-formed one says |
| EndToEnd.CallIsRelayedIff | lib/c/kernel_space.ko/lrkproxy_module.c:147-407 | over all interleavings, until a `D` on one of its buckets is delivered, a call whose `S` was delivered with memory is relayed between the learned ports if and only if at that delivery the deciding entries of its buckets had its own targets |
| EndToEnd.CallIsRelayed | lib/c/kernel_space.ko/lrkproxy_module.c:363-407 | over all interleavings, an `S` that finds distinct empty buckets and memory has its call relayed between the learned ports until a `D` on one of them is delivered |
| EndToEnd.TeardownMatchesSetup | lib/c/user_space.o/user_space.c:245-271 | across the rewrite, whatever ports were learned and whatever stale text follows, `S` then `D` empties exactly the call's two buckets |
| EndToEnd.CallOvertakenIff | lib/c/user_space.o/user_space.c:199-287 | a call's `D` read now can overtake its `S` if and only if the pipe has room, the child of the `S` has neither sent nor died, and each of the two texts has less than 1024 bytes and at most three left-over tokens (and an `S` of 1023 bytes a reprint that can fit) |
| EndToEnd.FirstCallMayBeOvertaken | lib/c/user_space.o/user_space.c:196-287 | the first call of a fresh process can be overtaken by its `D` when the `D` is at least as long and the `S` has less than 1023 bytes |
| EndToEnd.TeardownMayOvertake | lib/c/user_space.o/user_space.c:213-287 | from any reachable state in which the `S` is undelivered, its pipe not full, and the `D` read next within the child's arrays, both orders of delivery are possible with the same reads; in order the call's buckets end up empty, overtaken they hold exactly the torn-down call |
| Repetition.PerformedTwiceIff | lib/c/user_space.o/user_space.c:196-217 | over all runs no block is delivered twice, and two delivered lines are one accepted request if and only if only empty reads lie between their blocks |
| Repetition.PerformedOnce | lib/service/udp_socket_service.py:48-63 | without empty reads every accepted request is performed at most once |
| Repetition.LastRequestRepeats | lib/c/user_space.o/user_space.c:196-217 | from any reachable state between two reads, with room in the pipe and a block its child can send, for every n some run with empty reads only applies the last request to the table exactly n more times |
| Repetition.RepeatedSetupGrows | lib/c/kernel_space.ko/lrkproxy_module.c:391-407 | an `S` applied n times adds exactly n entries to each of its two buckets, or 2n to a shared one |

## Left out

- Pipeline.DrainEnds: bounds consumer actions, not time; blocking calls are assumed to return.
- UserSpace.Child: at most 1023 bytes and 15 tokens, and for an `S` ten tokens, ports of at most 14 characters and a reprint below 1024 bytes, because beyond them the C code leaves its arrays; in `ForkPipe` such a child may only die. The 15-byte copies of the ports may read a few bytes behind the text, which no one looks at.
- LineMeaning.SetupMeaning: says nothing when left-over text brings the line past 15 tokens or 1023 bytes (`TokenisableIff` tells when), because the C code then leaves its arrays.
- LineMeaning.TeardownMeaning: the same.
- EndToEnd.TeardownMatchesSetup: the same, for either line.
- UserSpace.Sockbind: after a time-out the code tests an unset length; it is one of the two observations "nothing received" and "a packet from 0.0.0.0, port 0", both of which are covered.
- NatTable.Kernel.RecvMsg: a line of one token is excluded, because the module then dereferences a null pointer.
- Hooks.Packet.UpdateChecksums: the UDP checksum is shown valid for the receiver when the UDP length field agrees with the IP payload length; `ip_fast_csum`, `csum_partial` and `udp_v4_check` are taken as the algorithm of RFC 1071, and their code is not part of this model.
- Hash chains are sequences held in an array of buckets; `hlist_node` pointers and RCU grace periods are not modelled, and each hook and each message is one atomic step.
- The concurrent parts (parent, children and pipe; producers and consumers) are state machines over atomic steps, while loops and buffers inside a step are imperative methods.
- Routing between the two hooks is assumed to leave addresses, ports and payload alone; fragments without a UDP header are not modelled.
- Strings in `Pipeline.dfy` are decoded text, since Python strips and splits code points; the C stages work on bytes, and well-formed requests are ASCII, where both agree. Datagrams that are not valid UTF-8 are rejected before anything modelled here.
- Pipeline.DrainsExactly: holds with `save_call_cache = False`, as shipped. With it on, a 12-field request whose call id is `requests` or `add_calls` makes `CallStatusRequest.add` raise (`lib/cache/call_status_request_cache.py:6-22`), which would end the first consumer as an 11-field request does.
- The time-out and the call id of an entry are stored but never read, so entries do not carry them.
- The disabled RTCP block and its keys.
- Sockets, netlink transport, process launching, building, logging, monitoring, configuration and the request caches.
- The answers to `P`, `G` and accepted requests.
- `consumer_delete_request`: nothing puts requests on its queue; it is the same loop.
- `lib/service/session_controller_service_new.py`: a copy of the live file with inconsistent indentation.
