# AeroFrame, verified

AeroFrame is a binary telemetry packet library. This project models its wire-level core in Dafny and proves what the
pieces promise together: that packets survive the trip from builder to parser, and exactly which damage on the way the
parser notices, that the decompressors undo their formats, that the limiter limits, that fragments assemble in any order, that the queue keeps
its messages, and that every table-driven or reduced loop computes its textbook definition.

Loops and mutable objects of the library are methods with loops and classes here; each is proved equal to a
specification function, and the theorems are lemmas about those functions, for every input, every run or every
reachable state. Bytes are `bv8` and registers are bit vectors, so shifts, masks and wrap-around are the machine's.

| module | file | part of the library |
|---|---|---|
| Bytes | Bytes.dfy | bytes, big-endian fields, byte strings as bit strings |
| Crc16, BitCrc, LongDivision, Period | Crc16.dfy, BitCrc.dfy, LongDivision.dfy, Period.dfy | the packet check value, its linear algebra, its polynomial arithmetic |
| Packet, Parser, Builder, Integrity | Packet.dfy, Parser.dfy, Builder.dfy, Integrity.dfy | the packet format, both ends of it, and what damage is noticed |
| Lzss, Rle | Lzss.dfy, Rle.dfy | the decompressors |
| RateLimiter | RateLimiter.dfy | the sliding-window limiter |
| FragmentModel, Reassembler | FragmentModel.dfy, Reassembler.dfy | fragments and the linked list of retransmit requests |
| QueueModel, QueueConservation, PriorityQueues | Queue.dfy, QueueConservation.dfy, PriorityQueue.dfy | the four-level priority queue |
| Crc32, Sums | Crc32.dfy, Sums.dfy | CRC-32, Adler-32 and the Fletcher sums |
| Codecs | Codecs.dfy | the varint and delta codecs |

Where the library falls short of what one might expect, the model keeps the code's behaviour and says exactly when:

- The length field of a packet decides how much of it is checked, so damage to that field can go unnoticed and hide
  chunks: the length of a packet that ends before a chunk is accepted if and only if that chunk's kind is the shorter
  packet's check value (`Integrity.ShorterLengthAcceptedIff`), and a single flipped bit can be enough
  (`Integrity.LengthBitAccepted`). `Integrity.DamageAcceptedIff` says of any damage whatever when it is accepted; the
  guarantees about bursts, odd and small numbers of flipped bits hold of damage that spares bytes 6 and 7.
- Sparing that field, two flipped bits escape the packet check exactly at distances that are multiples of 32767 (`Period.TwoBitsUndetectedIff`,
  `Integrity.TwoBitErrorAcceptedIff`), and long packets that differ so exist (`Integrity.PairOfPackets`). Of
  all patterns within seventeen bits that flip the first of them only the generator's can escape it
  (`Integrity.SeventeenBitsAcceptedIff`), and it does (`Integrity.GeneratorAccepted`).
- Promoting or demoting an identifier that its level holds more than once loses the other copies, and the message
  counter does not notice (`QueueConservation.PromoteConservesIff`, `QueueConservation.DuplicateIdLosesMessage`); over a
  whole run it is exact if and only if this never happened (`QueueConservation.CounterExactIff`).
- An assembled message includes fragments beyond the announced number, and is the announced ones alone if and only if the
  others are empty (`FragmentModel.AssembleAnnouncedIff`, `FragmentModel.ExtraFragmentAssembled`).
- The limiter bounds every window when call times do not go back (`RateLimiter.WindowGuarantee`). With no order on the
  times, a configuration still bounds every window if and only if its maximum is at most one or its window is
  0xFFFFFFFF milliseconds (`RateLimiter.AnyOrderBoundIff`); otherwise one step back by one millisecond is enough to break
  it (`RateLimiter.OneStepBack`).
- An LZSS input cut short is refused if and only if the cut falls between the two bytes of a match; at every other place
  it is accepted and gives the tokens before the cut (`Lzss.TruncatedExactly`, for a cut of any readable input
  `Lzss.CutShort`). test/test_compress.cpp:140-149 expects a refusal of a group that ends after its first literal, and
  src/compress.cpp:59 does not give one (`Lzss.ShortGroupAccepted`).
- test/test_fragment.cpp:62-79 expects retransmit requests for fragments that are not held to succeed;
  src/fragment.cpp:90-92 refuses them, and so does the model (`FragmentModel.RequestRefusedIff`).
- include/compress.h:26 says that offsets reach 1..4096 back and src/compress.cpp:43 that they are 0..4095; both are
  right, since offset 0 reads the slot about to be overwritten, which is distance 4096.

For every operation the specification function it is proved against is in turn tied to plain numbers and bytes by a
lemma whose name ends in Meaning, Format, Report or the like, so that no reading of a field, count or limit rests on a
definition alone.

Most proofs about registers hide the bit-level definitions (`hide`) and use the laws of addition over the two-element
field only; each law is proved once from the bits.

## Model

| member | source | states |
|---|---|---|
| Crc16.MakeCrc16Table | include/aeroframe.h:114-124 | the nested loops fill the table whose entry i is eight division steps of the byte i in the high half |
| Crc16.TableStep | src/aeroframe.cpp:42 | one table lookup is eight single-bit division steps, for every register and byte |
| Crc16.CrcLinear | src/aeroframe.cpp:39-45 | the check is linear: the register of a bitwise sum of messages is the sum of their registers |
| Crc16.CrcOfZeros | src/aeroframe.cpp:39-45 | zero bytes never clear a nonzero register nor disturb a zero one |
| Crc16.Residue | src/aeroframe.cpp:130-137 | a message followed by two bytes leaves the zero register if and only if they are its check value |
| Crc16.CheckValue | src/aeroframe.cpp:39-45 | the digits 1 to 9 have check value 0x29B1, the published one for this polynomial and start |
| BitCrc.CrcIsFeedBits | src/aeroframe.cpp:39-45 | the byte-wise register is the register fed bit by bit, for every message |
| BitCrc.BurstDetected | src/aeroframe.cpp:39-45 | no nonzero error within sixteen consecutive bits has check value zero |
| BitCrc.OddErrorDetected | src/aeroframe.cpp:39-45 | no error with an odd number of flipped bits has check value zero |
| BitCrc.GeneratorUndetected | include/aeroframe.h:119 | the seventeen-bit generator pattern, anywhere, has check value zero, so sixteen is the limit |
| LongDivision.Within17UndetectedIff | include/aeroframe.h:119 | a pattern within seventeen bits that flips the first of them has check value zero if and only if it is the generator |
| LongDivision.CrcIsRemainder | include/aeroframe.h:114-124 | the check value is the remainder of schoolbook long division of the message bits by x^16 + x^12 + x^5 + 1 |
| Period.PeriodExactly | include/aeroframe.h:119 | the powers of x modulo the generator return to one exactly at the multiples of 32767 |
| Period.TwoBitsUndetectedIff | src/aeroframe.cpp:39-45 | two flipped bits have check value zero if and only if their distance is a multiple of 32767 |
| Period.FewErrorsDetected | src/aeroframe.cpp:39-45 | among up to 32767 bits no one, two or three flipped ones have check value zero |
| Packet.ChunkFormat | src/packet_builder.cpp:37-48 | the bytes of a chunk in numbers: kind and size of the value, high byte first, then the value |
| Packet.WireFormat | src/packet_builder.cpp:54-67 | the bytes of a packet in numbers: AF 01 AF 01, sequence number, size of the whole, chunks, check value; printable up to 65535 bytes |
| Packet.EncodeThenDecode | src/aeroframe.cpp:51-71 | splitting a printed chunk list gives the list back |
| Packet.DecodeThenEncode | src/aeroframe.cpp:51-71 | a region that splits is the printed form of the chunks it splits into, whose length fields are right |
| Packet.FirstFault | src/aeroframe.cpp:51-71 | the chunks kept print to the start of the region, and where splitting stops no chunk at all can be printed next |
| Packet.SplitsIff | src/aeroframe.cpp:51-71 | a region splits if and only if it is the printed form of some chunk list |
| Packet.RefusalReasons | src/aeroframe.cpp:77-140 | which error is reported, as an if-and-only-if for each of the five |
| Packet.EarlyRefusal | src/aeroframe.cpp:77-89 | the whole report of a string of fewer than ten bytes or with another first four |
| Packet.LengthRefusal | src/aeroframe.cpp:91-101 | the report when the length field is below ten or beyond the data: header bytes, no chunks, no check value; and no other string with the right start is reported so |
| Packet.RegionReport | src/aeroframe.cpp:103-140 | the report of every other string, refused or not: chunks that print to a longest prefix of the region, and the check value read and compared exactly when they are all of it |
| Packet.BuildThenParse | src/packet_builder.cpp:54-67 | for any sequence number and chunks that fit, the printed packet parses without error to the same number and the same chunks, whatever follows it |
| Packet.ParseThenRebuild | src/aeroframe.cpp:77-140 | an accepted byte string starts with exactly the packet printed from what was parsed |
| Packet.AcceptedIffBuilt | src/aeroframe.cpp:77-140 | the parser accepts a byte string if and only if it starts with a packet that the builder can print |
| Packet.ParsedInjective | src/aeroframe.cpp:77-140 | exact packets that parse alike are equal |
| Packet.TrailingBytesIgnored | src/aeroframe.cpp:98-105 | bytes past the declared length change nothing in the report, error or not |
| Parser.ComputeCrc16 | src/aeroframe.cpp:39-45 | the parser's table loop computes the check value of the first len bytes |
| Parser.ParseTLVs | src/aeroframe.cpp:51-71 | the offset loop appends exactly the chunks that fit before the first fault and says whether there was one |
| Parser.Parse | src/aeroframe.cpp:77-140 | the whole report, field by field, on accepted and refused inputs alike |
| Builder.PacketBuilder.constructor | src/packet_builder.cpp:6 | a new builder has sequence number zero and no chunks |
| Builder.PacketBuilder.Reset | src/packet_builder.cpp:8-11 | reset forgets the sequence number and the chunks |
| Builder.PacketBuilder.SetSequence | src/packet_builder.cpp:13-15 | sets the sequence number and nothing else |
| Builder.PacketBuilder.AppendTLV | src/packet_builder.cpp:37-48 | refuses a missing buffer and a length over 65535, otherwise the payload is the printed form of the chunks so far with the new one last |
| Builder.PacketBuilder.WriteBE16 | src/packet_builder.cpp:17-20 | writes two bytes in place, high byte first, and leaves the rest of the buffer |
| Builder.PacketBuilder.WriteBE32 | src/packet_builder.cpp:22-27 | writes four bytes in place, high byte first, and leaves the rest of the buffer |
| Builder.PacketBuilder.ComputeCrc16 | src/packet_builder.cpp:29-35 | the builder's copy of the loop computes the same check value as the parser's |
| Builder.PacketBuilder.Finalize | src/packet_builder.cpp:54-67 | succeeds exactly when the packet fits in 65535 bytes and then prints it; a failure leaves the caller's buffer |
| Builder.SendAndReceive | src/packet_builder.cpp:37-67 | what a builder finalizes, the parser receives: same sequence number, same chunks in order |
| Integrity.DamageAcceptedIff | src/aeroframe.cpp:77-140 | any damage to an accepted packet, length field included, is accepted if and only if the magic number is intact, the length now declared is possible, the region of that length splits, and over that length the registers of error pattern and original agree |
| Integrity.ShorterLengthAcceptedIff | src/aeroframe.cpp:98-137 | a length field damaged to end the packet before a chunk is accepted if and only if that chunk's kind is the shorter packet's check value, and then this chunk and all later ones are missing from the report |
| Integrity.LengthBitAccepted | src/aeroframe.cpp:98-137 | a family of 24-byte packets in which one flipped bit of the length field drops the second of two chunks |
| Integrity.UndetectedIff | src/aeroframe.cpp:77-140 | damage that spares the length field is accepted if and only if the magic number is intact, the region still splits, and the error pattern's own check value is zero |
| Integrity.BurstRejected | src/aeroframe.cpp:77-140 | every burst of up to sixteen bits that spares bytes 6 and 7 makes an accepted packet fail |
| Integrity.OddErrorRejected | src/aeroframe.cpp:77-140 | so does every odd number of flipped bits that spares bytes 6 and 7 |
| Integrity.TwoBitErrorAcceptedIff | src/aeroframe.cpp:77-140 | two flipped bits that spare bytes 6 and 7 are accepted if and only if they are a multiple of 32767 apart and spare magic number and chunk structure |
| Integrity.FewErrorsRejected | src/aeroframe.cpp:77-140 | in packets of up to 4095 bytes any one, two or three flipped bits that spare bytes 6 and 7 are caught |
| Integrity.SeventeenBitsAcceptedIff | src/aeroframe.cpp:77-140 | of all damage within seventeen bits that flips the first of them and spares bytes 6 and 7, exactly the generator pattern is accepted, provided magic number and chunk structure survive |
| Integrity.ValueDamageIff | src/aeroframe.cpp:77-140 | in any packet, damage to the value of one chunk is accepted if and only if its pattern has check value zero, and then the damaged value is what the receiver sees |
| Integrity.PairAccepted | src/aeroframe.cpp:77-140 | in any packet with a chunk of at least 4096 bytes, two bits of its value flipped 32767 apart give another accepted packet |
| Integrity.PairOfPackets | src/aeroframe.cpp:77-140 | a packet of 4096 zero bytes of value and its two-bit neighbour are both accepted |
| Integrity.GeneratorAccepted | src/aeroframe.cpp:77-140 | the generator pattern laid over a chunk's value gives another accepted packet with another value |
| Lzss.CopyBackRepeats | src/compress.cpp:72-82 | a match keeps the output, adds its length, and every added byte repeats the one at its distance, zeros lying before the start |
| Lzss.RingStep | src/compress.cpp:78-80 | writing at the cursor keeps, for every k up to 4096, the slot k behind it equal to the byte k back in the output |
| Lzss.RingRead | src/compress.cpp:75-77 | the slot a match reads holds the byte its distance back, offset 0 meaning 4096 |
| Lzss.Emit | src/compress.cpp:78-80 | writes one byte to output and ring, steps both cursors and keeps the ring in step |
| Lzss.CopyMatch | src/compress.cpp:74-82 | the copy loop through the ring is the window-free copy |
| Lzss.DecompressLZSS | src/compress.cpp:46-96 | succeeds exactly when the input cuts into tokens whose expansion fits, writes that expansion, touches nothing beyond it, and leaves the length variable on failure |
| Lzss.MatchMeaning | src/compress.cpp:60-91 | on any literals followed by one match: the two bytes hi, lo add hi % 16 + 3 bytes, each repeating the one 256 * (hi / 16) + lo places back, 4096 for zero, zeros before the start; refused exactly when that does not fit |
| Lzss.ReadSerialized | src/compress.cpp:39-44 | cutting undoes printing for every token list, eight tokens to a control byte, last group short |
| Lzss.SerializeThenDecode | src/compress.cpp:46-96 | decoding a printed token list gives its expansion when it fits and fails otherwise |
| Lzss.LiteralRoundTrip | src/compress.cpp:84-91 | an encoder that emits only literals is undone on every byte string |
| Lzss.ExpansionBound | src/compress.cpp:46-96 | 17 times the output length is at most 144 times the input length |
| Lzss.CutShort | src/compress.cpp:56-92 | any readable input cut after n bytes reads as the tokens that end by then, unless the cut falls between the two bytes of a match, and only then it is refused |
| Lzss.TruncatedExactly | src/compress.cpp:56-92 | the same of every printed token list, with the decoder's answer for any capacity |
| Lzss.EndStep | src/compress.cpp:39-44 | where tokens end in a printed list: one byte for a literal, two for a match, one more before every eighth token |
| Lzss.RefusedByOneByte | src/compress.cpp:62 | every input refused for its form reads well with its last byte gone and with any one byte added |
| Lzss.ShortGroupAccepted | src/compress.cpp:59 | the witness: a control byte and one literal decode to that literal, whatever the other control bits ask for |
| Rle.DecompressRle | src/compress.cpp:7-36 | succeeds exactly when the input cuts into tokens whose expansion fits, writes that expansion, touches nothing beyond it |
| Rle.DecompressPayload | src/compression.cpp:23-62 | the second decoder meets the same description on all inputs |
| Rle.RunMeaning | src/compress.cpp:14-35 | a first byte from 128 on repeats the next byte that many less 128 times, and alone is refused |
| Rle.SpanMeaning | src/compress.cpp:14-35 | a first byte below 128 copies that many bytes, and fewer are refused |
| Rle.WriteThenRead | src/compression.cpp:10-18 | cutting undoes printing for every list of runs and spans, counts of zero included |
| Rle.ReadThenWrite | src/compression.cpp:10-18 | printing undoes cutting: a string has at most one reading |
| Rle.WriteThenDecode | src/compress.cpp:7-36 | decoding a printed token list gives its expansion when it fits and fails otherwise |
| Rle.DecodeConcat | src/compress.cpp:14-35 | after a decodable prefix the whole decodes exactly when the rest decodes into the room left, to the concatenation |
| Rle.ExpansionBound | src/compress.cpp:14-35 | twice the output length is at most 127 times the input length |
| RateLimiter.RateLimiter.Configure | src/rate_limiter.cpp:14-17 | replaces a key's configuration, keeping its remembered times |
| RateLimiter.RateLimiter.Allow | src/rate_limiter.cpp:35-47 | is one step of the bucket machine on its key, and accepts keys without a bucket |
| RateLimiter.RateLimiter.Reset | src/rate_limiter.cpp:49-52 | forgets a key's times and keeps its configuration |
| RateLimiter.AskMeaning | src/rate_limiter.cpp:39-46 | one call in numbers: times before the window are dropped from the front, and the call is accepted and remembered if fewer than the maximum are left |
| RateLimiter.ResetMakesRoom | src/rate_limiter.cpp:49-52 | after a reset the next calls up to the maximum are all accepted, whatever their times and whatever happens to other keys |
| RateLimiter.ConfigureKeepsTimes | src/rate_limiter.cpp:14-17 | after a new configuration the next call is decided by the times remembered under the old one |
| RateLimiter.PruneKeepsWindow | src/rate_limiter.cpp:39-43 | what pruning keeps is exactly the acceptances inside the window of the call |
| RateLimiter.OtherKeysIrrelevant | src/rate_limiter.cpp:36-38 | the events accepted for a key in a run depend only on the calls on that key |
| RateLimiter.RunsAreSettled | src/rate_limiter.cpp:14-52 | through configurations, resets and calls whose times do not go back, what is remembered for a key stays in order and in the past |
| RateLimiter.WindowGuarantee | src/rate_limiter.cpp:35-47 | from any such state, reconfigured ones included, with nondecreasing times every closed window, wherever placed, holds at most max_events acceptances made since |
| RateLimiter.GuaranteeFromAnyPoint | src/rate_limiter.cpp:14-52 | so it does after any history of an empty limiter, until the key is configured or reset again |
| RateLimiter.AcceptExactly | src/rate_limiter.cpp:44-46 | the next call is accepted if and only if fewer than max_events of the remembered times and the acceptances since lie in its window |
| RateLimiter.AnyOrderBoundIff | src/rate_limiter.cpp:35-47 | with no order on the times, every window holds at most max_events if and only if max_events is at most one or window_ms is 0xFFFFFFFF |
| RateLimiter.OneStepBack | src/rate_limiter.cpp:38-43 | for any other configuration, a run whose times go back once, by one, puts max_events + 1 acceptances into a window |
| RateLimiter.BackwardTimesBreakWindow | src/rate_limiter.cpp:41-43 | the witness: with two events per ten milliseconds, three acceptances in one window |
| FragmentModel.PushMeaning | src/fragment.cpp:54-88 | a push stores the fragment as given and touches no other, or is refused for more than 1024 bytes, an identifier from 64 on or a total above 64 |
| FragmentModel.RequestMeaning | src/fragment.cpp:90-110 | a request goes last and points to the fragment then held |
| FragmentModel.ProcessMeaning | src/fragment.cpp:112-141 | the first request with both identifiers leaves the list, and its fragment is pushed as it was if the pointer is set and the data is not empty |
| FragmentModel.CompleteMeaning | src/fragment.cpp:143-154 | complete means that every identifier below the total of the smallest one held is held |
| FragmentModel.AssembleMeaning | src/fragment.cpp:156-175 | a complete message assembles to all the data held, identifier by identifier |
| FragmentModel.RequestRefusedIff | src/fragment.cpp:90-92 | a retransmit request is entered if and only if the fragment is held, so an empty reassembler refuses every one |
| FragmentModel.AssembleExactly | src/fragment.cpp:54-175 | chunks delivered in any order, with repeats, among other messages, assemble to nothing until all have arrived and then to exactly their concatenation |
| FragmentModel.AssembleAnnouncedIff | src/fragment.cpp:143-175 | the assembled message is the announced fragments alone if and only if every further one held is empty |
| FragmentModel.ExtraFragmentAssembled | src/fragment.cpp:143-175 | from the empty reassembler, a second fragment of a message announced as one ends up in the assembled message |
| FragmentModel.DiscardMeaning | src/fragment.cpp:177-187 | a discard clears, for each fragment of the message, the first request that points to it, and changes no other request and no other message |
| FragmentModel.RunsAreSound | src/fragment.cpp:54-187 | in every run fragments lie under their own identifiers and are told apart by their handles, as the above needs |
| FragmentModel.DiscardIsFinal | src/fragment.cpp:43-52 | if each fragment of a message has at most one request and none is stale, no retransmission brings the message back after a discard, in any run without a push of it |
| FragmentModel.DiscardForgetsOne | src/fragment.cpp:177-187 | discarding forgets one message, changes no other and drops no request |
| Reassembler.FragmentReassembler.constructor | src/fragment.cpp:7-12 | a new reassembler holds nothing and its list is empty |
| Reassembler.FragmentReassembler.PushFragment | src/fragment.cpp:54-88 | refuses oversized or out-of-range fragments, otherwise stores one in place of any with the same identifiers |
| Reassembler.FragmentReassembler.RequestRetransmit | src/fragment.cpp:90-110 | refuses what is not held, otherwise appends one request at the tail; the list keeps its shape |
| Reassembler.FragmentReassembler.ProcessRetransmit | src/fragment.cpp:112-141 | unlinks exactly the oldest request for the key, keeps the order of the rest and the shape of the list |
| Reassembler.FragmentReassembler.Unlink | src/fragment.cpp:130-135 | removing a node relinks its neighbours, moves head and tail where needed and counts down |
| Reassembler.FragmentReassembler.RemoveFromRetransmitQueue | src/fragment.cpp:43-52 | clears the first pointer to a fragment and nothing else |
| Reassembler.FragmentReassembler.DiscardMessage | src/fragment.cpp:177-187 | removes a message and clears one pointer for each of its fragments |
| Reassembler.FragmentReassembler.IsMessageComplete | src/fragment.cpp:143-154 | whether all identifiers below the number announced by the first fragment are held |
| Reassembler.FragmentReassembler.AssembleMessage | src/fragment.cpp:156-175 | joins all fragments held, in order of identifier, exactly when the message is complete |
| Reassembler.ListIsSpine | src/fragment.cpp:90-141 | following the links from the head reaches every request once, in order, and ends; head is null exactly when tail is |
| Reassembler.CounterIsLength | src/fragment.cpp:90-141 | the 32-bit counter is the number of requests in the list until it wraps |
| QueueModel.EmptyIsOrderly | src/queue.cpp:7-11 | the empty queue has the property that runs keep |
| QueueModel.RunsAreOrderly | src/queue.cpp:23-161 | in every run with fresh valid messages each message's priority is its level and its promotion count at most that |
| QueueModel.PromotionCountExact | src/queue.cpp:77-79 | in such states a promotion counts up by one and never wraps |
| QueueModel.ReprioritizeIdle | src/queue.cpp:146-161 | in such states reprioritizing changes nothing |
| QueueConservation.EmptyIsCounted | src/queue.cpp:7-11 | the empty queue has both properties of the counter that runs keep |
| QueueConservation.RunsAreCovered | src/queue.cpp:23-161 | in every run the counter is at least the number of messages held, so it never wraps below zero |
| QueueConservation.RunsAreCounted | src/queue.cpp:23-161 | with no identifier enqueued while held, the counter is exact and identifiers stay unique in every run |
| QueueConservation.CounterExactIff | src/queue.cpp:23-161 | an exact counter is exact after a run if and only if every successful promotion and demotion hit an identifier its level held once |
| QueueConservation.EnqueueMeaning | src/queue.cpp:23-38 | in numbers: refused from 65535 on, otherwise last in the level of the priority, clamped to 3 |
| QueueConservation.DequeueMeaning | src/queue.cpp:40-51 | the first message of the highest nonempty level leaves, and the counter goes down by one |
| QueueConservation.PromoteMeaning | src/queue.cpp:66-102 | the first message with the identifier in the lowest level that holds it goes last into the next, with identifier, data and enqueue time kept and one promotion more; all with the identifier leave; level 3 refuses |
| QueueConservation.DemoteMeaning | src/queue.cpp:104-123 | likewise one level down with no promotions left; level 0 refuses |
| QueueConservation.NotFound | src/queue.cpp:66-123 | an identifier that is not held is neither promoted nor demoted |
| QueueConservation.MovesLoseNothing | src/queue.cpp:66-123 | with unique identifiers promotion and demotion keep the bag of identifiers and data |
| QueueConservation.PromoteConservesIff | src/queue.cpp:66-102 | promotion keeps the number of messages if and only if the level holds the identifier once |
| QueueConservation.DemoteConservesIff | src/queue.cpp:104-123 | demotion keeps the number of messages if and only if the level holds the identifier once |
| QueueConservation.DuplicateIdLosesMessage | src/queue.cpp:73-76 | enqueueing an identifier twice and promoting it leaves one message and a count of two |
| QueueConservation.MoveKeepsOrder | src/queue.cpp:72-100 | a move closes the gap it leaves and puts its copy last in the other level |
| QueueConservation.ReprioritizeLosesNothing | src/queue.cpp:146-161 | reprioritizing keeps the bag of messages from any counts and identifiers |
| QueueConservation.ReprioritizeClimbsOne | src/queue.cpp:146-161 | a level then holds exactly what it held and was not overdue, and the overdue messages of the level below, relabelled, so no message climbs two levels |
| QueueConservation.ReprioritizeMeaning | src/queue.cpp:146-161 | the same in numbers: a hundred promotions, and a copy with the new priority, no promotions, and identifier, data and enqueue time kept |
| QueueConservation.ReprioritizeKeepsOrder | src/queue.cpp:146-161 | those that stay keep their order, those that come up keep theirs, and come after them |
| QueueConservation.ReprioritizeTwice | src/queue.cpp:146-161 | reprioritizing is idempotent |
| QueueConservation.DrainOrder | src/queue.cpp:40-51 | repeated dequeuing yields level 3, 2, 1, 0, each first in, first out |
| QueueConservation.ExpireMeaning | src/queue.cpp:131-144 | expiry erases exactly the messages for which now less the enqueue time, plus 2^32 if that is negative, exceeds the limit, and counts them down |
| QueueConservation.ExpireKeepsOrder | src/queue.cpp:131-144 | the messages that stay keep their order |
| PriorityQueues.PriorityQueue.Enqueue | src/queue.cpp:23-38 | refuses at 65535 counted messages, otherwise appends to the level of the priority, clamped to the highest |
| PriorityQueues.PriorityQueue.Dequeue | src/queue.cpp:40-51 | takes the first message of the highest nonempty level |
| PriorityQueues.PriorityQueue.FindMessage | src/queue.cpp:53-64 | finds the first message with the identifier from the lowest level up |
| PriorityQueues.PriorityQueue.Promote | src/queue.cpp:66-102 | is the promotion step of the state machine, wrapping counters included |
| PriorityQueues.PriorityQueue.Demote | src/queue.cpp:104-123 | is the demotion step of the state machine |
| PriorityQueues.PriorityQueue.ExpireOld | src/queue.cpp:131-144 | the erase loops are the expiry step of the state machine |
| PriorityQueues.PriorityQueue.RaiseLevel | src/queue.cpp:147-160 | one level's loop leaves what is not overdue, in order, and appends the rest to the next level, in order |
| PriorityQueues.PriorityQueue.Reprioritize | src/queue.cpp:146-161 | the loops over three levels meet the closed form in which no message moves twice |
| PriorityQueues.PriorityQueue.CountForPriority | src/queue.cpp:125-129 | the length of a level, zero for a priority out of range |
| Crc32.MakeCrc32Table | src/checksum_chain.cpp:9-19 | the nested loops fill the table of eight reflected division steps |
| Crc32.RegisterIsBitwise | src/checksum_chain.cpp:31-37 | the byte-wise register is that of the bitwise algorithm of section 8 of RFC 1952, for every message |
| Crc32.ComputeCrc32 | src/checksum_chain.cpp:31-37 | the table loop computes that check value |
| Crc32.CheckValue | src/checksum_chain.cpp:31-37 | the digits 1 to 9 have check value 0xCBF43926, the published one |
| Crc32.Residue | src/checksum_chain.cpp:31-37 | a message followed by four bytes has check value 0x2144DF1C if and only if they are its own check value, low byte first |
| Sums.ComputeAdler32 | src/checksum_chain.cpp:57-64 | the loop reduced at every byte equals the weighted sums reduced once, modulo 65521 |
| Sums.ComputeFletcher16 | src/checksum_chain.cpp:39-46 | likewise modulo 255 from zero |
| Sums.ComputeFletcher32 | src/checksum_chain.cpp:48-55 | likewise modulo 65535 from zero, over bytes |
| Sums.ByteSummed | src/checksum_chain.cpp:39-64 | each byte adds its number to the low half, and the new low half to the high half, modulo 65521, 255 or 65535 |
| Sums.OneByte | src/checksum_chain.cpp:39-64 | both halves of the checksum of one byte are the starting value plus its number |
| Sums.CombineChecksums | src/checksum_chain.cpp:39-64 | the checksum of a concatenation follows from the two checksums and the second length |
| Sums.AdlerHighIsSumOfSums | src/checksum_chain.cpp:57-64 | the high half is the sum of all low halves, as section 2.2 of RFC 1950 words it |
| Codecs.EncodeVarint | src/codec_dispatch.cpp:76-92 | encodes the whole big-endian words and fails exactly when there is none |
| Codecs.DecodeVarint | src/codec_dispatch.cpp:26-47 | decodes word after word and fails on empty input or an overlong word |
| Codecs.EncodedWordMeaning | src/codec_dispatch.cpp:85-90 | an encoded word is LEB128 (section 7.6 of DWARF Version 5): its groups spell the word in base 128, all bytes but the last are marked, and it is as short as it can be |
| Codecs.EncodeMeaning | src/codec_dispatch.cpp:76-92 | words are four bytes, high byte first, encoded one after another; bytes left over are dropped |
| Codecs.DecodeMeaning | src/codec_dispatch.cpp:26-47 | up to five groups, shortest form or not, give four bytes, low byte first, of what they spell modulo 2^32 |
| Codecs.DecodeMidWord | src/codec_dispatch.cpp:34-46 | input may end in the middle of a word, which is then taken as it is |
| Codecs.DecodeRefused | src/codec_dispatch.cpp:38-39 | five marked bytes in a row refuse the input |
| Codecs.TooLongExactly | src/codec_dispatch.cpp:34-40 | a word is refused if and only if five bytes in a row ask for another group |
| Codecs.VarintRoundTrip | src/codec_dispatch.cpp:26-92 | decoding an encoded buffer gives its whole words with their bytes reversed |
| Codecs.VarintTwice | src/codec_dispatch.cpp:26-92 | two round trips restore every whole word |
| Codecs.EncodeDelta | src/codec_dispatch.cpp:63-74 | a zero, the first byte, then the differences modulo 256; fails exactly on empty input |
| Codecs.DecodeDelta | src/codec_dispatch.cpp:11-24 | the signed 16-bit accumulator yields the running sums modulo 256, whatever the first byte |
| Codecs.DeltaEncodeMeaning | src/codec_dispatch.cpp:63-74 | in numbers: a zero, the first byte, and every byte less the one before it, modulo 256 |
| Codecs.DeltaDecodeMeaning | src/codec_dispatch.cpp:11-24 | in numbers: every byte from the third on is added to the sum so far, which starts at the second, modulo 256 |
| Codecs.DeltaRoundTrip | src/codec_dispatch.cpp:11-74 | decoding an encoded buffer gives it back without its first byte |
| Codecs.DeltaReencode | src/codec_dispatch.cpp:11-74 | with the missing byte restored, encoding undoes decoding up to the unused first byte |

## Left out

- The bodies of the TLV handlers: they run before the check value is compared but never write to the report; their state is not part of this model.
- Null buffers, except in AppendTLV: parser, decompressors, checksums and codecs take byte sequences, so the null tests of the codecs are not modelled, nor an output buffer that overlaps the input.
- Reassembler.FragmentReassembler.ProcessRetransmit: memory lifetime is not modelled. A resend stores the contents the fragment had when it was requested, whereas the code copies from memory that has been freed: if the fragment is still held, src/fragment.cpp:122-125 passes its buffer to push_fragment, which frees it at src/fragment.cpp:68-72 before copying from it at src/fragment.cpp:75; if it was replaced, it was freed then. The model says what the resend is for, not what the code's copy then contains.
- Reassembler.FragmentReassembler.RemoveFromRetransmitQueue: fragments are told apart by handles that are never reused, whereas src/fragment.cpp:43-52 compares addresses. A fragment that replaces another may be allocated at the freed address, and a request made for the old one then matches the new one, which the model does not show.
- FragmentModel.DiscardIsFinal: where two requests point to one fragment, or one to a fragment since replaced, a discard leaves a pointer set (`FragmentModel.DiscardMeaning`); the code's resend through it reads freed memory, and what it then stores is not modelled.
- FragmentModel.AssembleExactly: runs that process retransmit requests are left out, because every resend of a nonempty fragment reads freed memory.
- Timestamps and acknowledgement marks of fragments, and expire_retransmit_queue, which only reads: nothing depends on them.
- Ordered maps of the reassembler are maps scanned in order of identifier below 64; the reservation of the output size has no effect and is left out.
- Sums.ComputeAdler32: the result is an unbounded number; it is below 2^32, and the shift-and-or of its halves is written as multiplication and addition, as in the Fletcher sums.
- RateLimiter.load_config_binary and read_u32: a length-checked loop of configure calls.
- crc16_ccitt, xor_fold, compute, verify_chain and load_chain_spec of the checksum chain, decode_bcd and the codec and method dispatch: easy or with no promised reference to meet.
- The numbered static helpers of every source file: nothing calls them.
- Sessions, protocol engine, cipher, routing, telemetry, ingest, registries, stores, schedulers and floating-point modules: not part of this model.
