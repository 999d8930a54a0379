# UDP file transfer: a verified model of the protocol core

This project models, in Dafny, the protocol logic of a small file transfer over UDP. The logic is made reliable by acknowledgements and retransmission.

The **sender** (`run_client`) reads a file and splits it into numbered chunks of 4096 bytes. It then works in rounds. Each round it:

- sends every chunk not yet acknowledged;
- collects the 4-byte ACKs that arrived during the wait;
- marks those chunks as acknowledged;
- bumps a retry counter for each chunk still pending.

Once nothing is pending it sends the six bytes `FINISH`.

The **receiver** (`run_server`) handles datagrams until it sees `FINISH`. For each datagram it:

- skips it if empty;
- stops on `FINISH`;
- decodes the frame and drops it if decoding fails;
- takes the total count and the file id from the first decoded frame;
- stores each chunk under its number, where the first arrival wins;
- ACKs the chunk number.

After the loop it checks the stored count against the total. It then sorts the chunks by number, joins their payloads and names the result `received_file_<id>.dat`.

A **frame** has a 12-byte header: three big-endian u32 fields `file_id`, `packet_number` and `total_packets`. The raw payload follows the header. There is no length field.

Modules:

- `Wrappers`: `Option` and `Result`.
- `Bytes`: bytes, u32, and the big-endian u32 codec with its two round trips. It also has the least-element lemma for sets of u32.
- `Packets` (src/packet.rs):
  - the frame codec, as total functions with round-trip lemmas in both directions;
  - the sequence helpers (`Ascending`, `Numbers`, `ConcatPayloads`).
- `Client` (src/client.rs):
  - the splitter, as a `for` loop proved equal to the `Split` specification;
  - the round, as methods over an explicit `Sender` state (`acked`, `retries`, `pending`) with a batch of ACK datagrams as input;
  - the outer loop, over a finite sequence of ACK batches, one batch per round.
- `Server` (src/server.rs):
  - the per-datagram step `Receive`, with its imperative form `HandleDatagram`;
  - the receive loop `ReceiveAll`;
  - the finalisation: `Collect` takes the map's values in arbitrary order, `SortByNumber` is an in-place insertion sort on an array, and the extend loop concatenates the payloads;
  - the output file name.
- `Transfer`: the two sides together.
  - A non-empty file of at most 4096 × U32_MAX bytes, whose file id is not 0x46494E49, is split, serialized and delivered in any order with any duplicates, then FINISH follows: the receiver rebuilds exactly the file.
  - An empty file gives no packets; the receiver then sees only FINISH, learns no total and writes no file.
  - The receiver's ACKs, fed back to the sender, acknowledge exactly the delivered chunks.

## Model

| member | source | states |
|---|---|---|
| Bytes.U32ToBE | src/server.rs:53 | the encoding of a u32 is four bytes |
| Bytes.BEToU32 | src/client.rs:91 | the first byte is the most significant: the value divided by 2^24 is that byte |
| Bytes.HighHalf | src/server.rs:36 | the first two bytes of the encoding spell a 16-bit value exactly when it is the value's high half |
| Bytes.BEToU32OfU32ToBE | src/packet.rs:22-24 | reading back the four big-endian bytes written for a u32 gives the u32 |
| Bytes.U32ToBEOfBEToU32 | src/packet.rs:33-35 | any four bytes are the big-endian encoding of the u32 they decode to |
| Bytes.U32ToBEInjective | src/server.rs:53 | different packet numbers give different ACK bytes |
| Packets.Serialize | src/packet.rs:19-28 | the frame is 12 + payload length bytes; bytes 0-3, 4-7 and 8-11 hold file id, packet number and total as big-endian u32; the payload follows verbatim; serialization cannot fail |
| Packets.Deserialize | src/packet.rs:31-44 | decoding fails exactly when fewer than 12 bytes are given; otherwise the payload is all bytes after offset 12, possibly none |
| Packets.DeserializeSerialize | src/packet.rs:52-65 | decoding an encoded packet gives back every field |
| Packets.SerializeDeserialize | src/packet.rs:19-44 | any buffer of at least 12 bytes is the encoding of what it decodes to |
| Packets.AscendingCons | src/server.rs:70 | a packet numbered below every packet of an ascending list can be put in front of it |
| Packets.NumbersAt | src/client.rs:101 | a number belongs to a packet list's numbers exactly when some position carries it |
| Packets.ConcatPayloads | src/server.rs:72-74 | joining the payloads puts the first packet's payload first |
| Client.TotalPackets | src/client.rs:25 | the count is 0 exactly for an empty file; up to 4096 × U32_MAX bytes it is the ceiling of size / 4096; beyond that the `as u32` cast saturates at U32_MAX |
| Client.Chunk | src/client.rs:28-35 | packet i holds a non-empty slice of at most 4096 bytes that starts at byte 4096·i and is full unless it reaches the end of the file |
| Client.SplitPayloadAt | src/client.rs:28-30 | packet j of a split file starts inside the file and holds the bytes from 4096·j up to the next boundary or the end |
| Client.Split | src/client.rs:27-38 | there are TotalPackets(size) packets; packet i has number i, the given file id and the packet count as total |
| Client.ReadFileAndSplit | src/client.rs:22-39 | the splitting loop produces exactly Split |
| Client.SplitAscending | src/client.rs:27-37 | split packets are numbered strictly ascending, and their numbers are exactly those below the count |
| Client.SplitSizes | src/client.rs:25-30 | count is (size + 4095) / 4096; every packet but the last holds 4096 bytes; the last holds the remaining 1 to 4096 bytes |
| Client.SplitPrefixConcat | src/client.rs:28-30 | the first k payloads joined are the first min(4096·k, size) bytes of the file |
| Client.SplitConcat | src/client.rs:27-38 | all payloads joined reproduce the file (for a file of at most 4096 × U32_MAX bytes) |
| Client.InitialSender | src/client.rs:57-69 | the state built is Fresh(packets): flags exist exactly for numbers below the packet count and are all false; counters exist for the same numbers and are all 0; every packet is pending |
| Client.InitFlagsAt | src/client.rs:58-60 | the flag loop leaves one false flag for every number below the count, and no other |
| Client.InitCountersAt | src/client.rs:64-66 | the counter loop leaves one 0 counter for every number below the count, and no other |
| Client.AckOf | src/client.rs:88-95 | a datagram acknowledges nothing when shorter than 4 bytes; otherwise exactly one number, whose big-endian encoding is its first four bytes |
| Client.MarkAcked | src/client.rs:88-95 | applying ACKs never removes a flag |
| Client.MarkAckedAt | src/client.rs:88-95 | after a batch, a number has a flag iff it had one or was ACKed; every ACKed number is true; other flags are unchanged |
| Client.MarkAckedSet | src/client.rs:88-95 | the acknowledged set grows by exactly the numbers in the batch's ACKs of at least 4 bytes; shorter datagrams are ignored |
| Client.AckNumbersAppend | src/client.rs:88-95 | the numbers ACKed by two batches in a row are the union of each batch's |
| Client.AckNumbersHas | src/client.rs:89-93 | a datagram of a batch contributes its number to the batch's ACKed numbers |
| Client.AckNumbersSub | src/client.rs:88-95 | a batch made only of datagrams of another ACKs no new numbers |
| Client.AckIdempotent | src/client.rs:93 | repeating ACKs already applied changes no flag |
| Client.Unacked | src/client.rs:98-102 | the filter keeps only packets of the original list whose flag is not set |
| Client.UnackedMembers | src/client.rs:98-102 | a packet is pending iff it is one of the packets and its number is not acknowledged |
| Client.UnackedAscending | src/client.rs:98-102 | the filtered list keeps the original ascending order |
| Client.UnackedEmpty | src/client.rs:71 | nothing is pending iff every packet's number is acknowledged |
| Client.UnackedNoneAcked | src/client.rs:69 | with no flag set, every packet is pending, in order |
| Client.UnackedOnlyOwnNumbers | src/client.rs:101 | the filter looks only at the flags of the packets' own numbers |
| Client.UnackedShrinks | src/client.rs:98-102 | with more flags set, the new pending list is the old pending list filtered again |
| Client.Frames | src/client.rs:73-74 | one frame per pending packet |
| Client.FramesDecode | src/client.rs:73-74 | each frame sent in a round decodes to the packet it was made from |
| Client.SendPending | src/client.rs:73-80 | the datagrams sent are the frames of the pending packets, in order |
| Client.ApplyAcks | src/client.rs:88-95 | the ACK loop sets exactly the flags MarkAcked describes |
| Client.Bumped | src/client.rs:105-107 | counting never removes a counter |
| Client.BumpedAt | src/client.rs:105-107 | a pending packet's counter goes up by exactly 1; every other counter is unchanged |
| Client.OverLimit | src/client.rs:108-111 | at most one report per pending packet |
| Client.OverLimitFrame | src/client.rs:105-111 | the exhausted report about the pending packets ignores the counters of other numbers |
| Client.BumpRetries | src/client.rs:105-112 | the counter loop gives the Bumped counters and reports exactly the pending numbers whose counter passed MAX_RETRIES; nothing is removed |
| Client.Step | src/client.rs:73-112 | after a round, the acknowledged set is the old one plus the numbers the round's ACKs name; every pending packet is one of the packets and unacknowledged |
| Client.Round | src/client.rs:73-112 | one round sends the frames of the pending packets, then applies the ACKs, recomputes pending and bumps counters |
| Client.StopRound | src/client.rs:71 | the round at which the loop stops lies between the start and the number of ACK batches |
| Client.StopRoundFirst | src/client.rs:71 | the loop stops at the first round with nothing pending, or when the batches run out |
| Client.RunRounds | src/client.rs:71-113 | the loop runs until nothing is pending or batches run out; its state and datagrams are those of the rounds; every datagram sent decodes to one of the packets |
| Client.RunClient | src/client.rs:50-117 | starting from Fresh over the split file, the rounds run, the final state and the datagrams sent are the StopRound, After and SentAfter of the ACK batches, with FINISH appended exactly when nothing is pending; a number is acknowledged at the end iff an ACK of one of the rounds run names it; FINISH means every packet is acknowledged; an empty file sends only FINISH |
| Client.AckedByAt | src/client.rs:88-95 | a number is named by the first k batches iff one of those batches names it |
| Client.AckedAfter | src/client.rs:88-95 | after k rounds, the acknowledged numbers are the initial ones plus those named by the first k batches |
| Client.AckedExactly | src/client.rs:57-95 | from the fresh state, a number is acknowledged after k rounds iff an ACK datagram of one of the first k batches names it |
| Client.PendingIsUnacked | src/client.rs:98-102 | before every round, pending is the unacknowledged packets in original order |
| Client.FromPacketsAppend | src/client.rs:73-80 | datagrams from two rounds that each decode to packets of the file together still do |
| Client.FramesFromPackets | src/client.rs:73-74 | frames of packets of the file decode to packets of the file |
| Client.SentStep | src/client.rs:71-80 | one more round of sending keeps every datagram decodable to a packet of the file |
| Client.OverLimitMembers | src/client.rs:108-111 | a number is reported iff it is pending and its counter exceeds MAX_RETRIES |
| Client.PendingShrinks | src/client.rs:98-102 | the next round's pending list is the current one with the newly acknowledged packets removed |
| Client.PendingRetries | src/client.rs:105-107 | a packet pending before round k has had its counter bumped exactly k times |
| Client.BumpedPending | src/client.rs:105-107 | bumping raises a pending packet's counter by one |
| Client.AckedNotResent | src/client.rs:93-102 | a packet acknowledged before round k is never pending again |
| Client.AckedGrows | src/client.rs:93 | flags only ever go from false to true |
| Client.AllAckedStops | src/client.rs:71-102 | a round whose ACKs cover every packet ends the loop |
| Client.NeverAckedFlag | src/client.rs:93 | a number no ACK names stays unacknowledged |
| Client.RetryCeiling | src/client.rs:105-112 | a packet never ACKed stays pending; once past MAX_RETRIES it is reported every round but not removed, so the loop keeps resending it |
| Server.Truncate | src/server.rs:26-30 | at most BUFFER_SIZE bytes of a datagram are kept, as a prefix |
| Server.IsFinish | src/server.rs:36 | the FINISH test holds iff the six FINISH bytes are a prefix of the datagram |
| Server.Receive | src/server.rs:30-61 | a step that sends no ACK changes nothing; an ACK is four bytes; no stored packet number is ever dropped |
| Server.ReceiveEmpty | src/server.rs:31-33 | an empty datagram is skipped with no state change |
| Server.ReceiveFinish | src/server.rs:36-39 | a datagram stops the loop exactly when its first six bytes spell FINISH; state is unchanged |
| Server.ReceiveShort | src/server.rs:42-60 | a non-FINISH datagram of 1 to 11 bytes is dropped: no state change, no ACK |
| Server.ReceiveAck | src/server.rs:53-54 | every decoded frame, duplicate or not, is ACKed with its packet number as 4 big-endian bytes |
| Server.ReceiveLatch | src/server.rs:46-49 | total and file id come from the first decoded packet and never change afterwards; non-ACKed steps change nothing |
| Server.ReceiveFirstWins | src/server.rs:51 | a stored packet is never replaced or removed; only the ACKed number can be added; the map grows by at most one |
| Server.ReceiveKeyed | src/server.rs:51 | every packet stays stored under its own number |
| Server.FinishCollision | src/server.rs:36-42 | a data frame is taken for FINISH iff its file id is 0x46494E49 and its number is 0x5348xxxx, whatever its payload; it then ends the loop undecoded with the state unchanged |
| Server.ReceiveFrame | src/server.rs:36-54 | a frame that fits the buffer and whose bytes do not start with FINISH is decoded, latched from, stored unless present, and ACKed |
| Server.ListenFinished | src/server.rs:38 | after FINISH no further datagram is read |
| Server.Listen | src/server.rs:28-62 | a run sends at most one ACK per datagram and never drops a stored packet number |
| Server.HandleDatagram | src/server.rs:30-61 | the loop body on the three pieces of state does what Receive says |
| Server.ReceiveAll | src/server.rs:28-62 | the receive loop's state, ACKs and stop are those of Listen over the datagrams |
| Server.ListenLatch | src/server.rs:46-49 | once the total is set, no later datagram changes it or the file id |
| Server.ListenKeeps | src/server.rs:51 | over a whole run, stored packets are never replaced and stay keyed by number |
| Server.LeastKey | src/server.rs:70 | the least stored packet number is stored and no larger than any other |
| Server.BagRemove | src/server.rs:69 | removing a key removes exactly its packet from the collected values |
| Server.InOrderAscending | src/server.rs:70 | with packets keyed by number, key order is strictly ascending packet-number order |
| Server.InOrderLength | src/server.rs:69-70 | the sorted packets are as many as the stored ones |
| Server.InOrderRange | src/server.rs:69-74 | when keys are exactly lo to lo+n-1 holding ps in order, the key order gives back ps |
| Server.SortedUnique | src/server.rs:70 | a non-decreasing list with the same packets as a strictly ascending one is that list |
| Server.SameHead | src/server.rs:70 | two sorted lists holding the same packets start with the same packet |
| Server.SameTail | src/server.rs:70 | dropping that shared first packet keeps both lists sorted and holding the same packets |
| Server.Collect | src/server.rs:69 | the collected list holds exactly the stored packets, in unspecified order |
| Server.TakeAny | src/server.rs:69 | one step of map iteration yields one stored packet and the rest |
| Server.SortByNumber | src/server.rs:70 | the array ends non-decreasing by packet number and is a permutation of the input |
| Server.InsertLast | src/server.rs:70 | inserting the next element keeps the prefix sorted and the contents permuted |
| Server.SwapDown | src/server.rs:70 | one swap keeps the insertion state and the contents |
| Server.SwappedApartFrom | src/server.rs:70 | swapping the out-of-place packet with a larger left neighbour keeps the insertion state |
| Server.InsertDone | src/server.rs:70 | once the inserted packet is no smaller than its left neighbour, the prefix is sorted |
| Server.Finalize | src/server.rs:65-94 | output exists iff a total was learned and the stored count (as u32) equals it; the data is the payloads in ascending number order; the name uses the file id, 0 if none |
| Server.MultisetTail | src/server.rs:70 | a list's bag without its head is the bag of its tail |
| Server.NonDecreasingTail | src/server.rs:70 | the tail of a sorted list is sorted |
| Server.Decimal | src/server.rs:76 | `{}` formatting gives decimal digits with no leading zero |
| Server.ParseDecimalOfDecimal | src/server.rs:76 | reading the digits back gives the number |
| Server.OutputName | src/server.rs:76 | the name is `received_file_`, the decimal id, then `.dat` |
| Server.OutputNameInjective | src/server.rs:76 | different file ids give different output file names |
| Server.RunServer | src/server.rs:17-94 | the output exists iff FINISH came, a total was learned and the count matches; its data is the stored payloads in number order; its name is `received_file_<id>.dat` |
| Transfer.ListenDelivered | src/server.rs:28-62 | after frames of a split file arrive in any order, every frame is ACKed and exactly the delivered numbers are stored, each with its own packet; total and id come from the packets |
| Transfer.DeliverOne | src/server.rs:42-54 | one more frame of a split file is ACKed and stored, and the delivered-state description is kept |
| Transfer.EndToEnd | src/server.rs:65-74 | when every chunk of a non-empty file arrives at least once, then FINISH, the count check passes and the sorted payloads join to exactly the file |
| Transfer.RunTransfer | src/client.rs:22-39 | splitting, delivering in any order and running the receiver gives `received_file_<id>.dat` holding exactly the file |
| Transfer.EmptyFile | src/client.rs:25-27 | an empty file gives no packets; the receiver sees only FINISH and learns no total, so it writes nothing |
| Transfer.AckOfAck | src/client.rs:89-93 | the sender reads back from an ACK exactly the number the receiver put in it |
| Transfer.AcksAcknowledge | src/server.rs:53-54 | the receiver's ACKs, applied by the sender, acknowledge exactly the delivered numbers |
| Transfer.TenThousandBytes | src/client.rs:25-30 | a 10000-byte file travels as packets of 4096, 4096 and 1808 bytes |
| Transfer.AckedZeroAndTwoFlags | src/client.rs:88-95 | ACKs for 0 and 2 set exactly those two flags |
| Transfer.LostAck | src/client.rs:98-107 | when the ACK for packet 1 of 3 is lost, only packet 1 stays pending and only its counter grows |

## Left out

- Socket I/O is not modelled:
  - binding, `send_to`, `recv_from` and `try_recv_from` are not modelled;
  - datagrams received become input sequences, and datagrams sent become output sequences;
  - a failed packet send (src/client.rs:75-76) or ACK send (src/server.rs:54-55) is only logged by the Rust code and is treated as a send here; a failed FINISH send panics (src/client.rs:117), and the model treats it as sent.
- Not modelled: the tokio runtime, `async`/`await`, the 500 ms `sleep` in the client round and the final server sleep. A round's ACK window is an input batch.
- The filesystem is not modelled. `File::open`/`read_to_end` are replaced by the file's bytes as input. `File::create`/`write_all` are replaced by an `Output` value (name and data), and their failure paths, which only log, are left out.
- Logging (`println!`/`eprintln!`) is not modelled.
- src/main.rs is not part of this model.
- Client.TotalPackets: the float ceiling `(size as f64 / 4096.0).ceil() as u32` is modelled as integer ceiling division with the saturating `as u32`. The two agree for file sizes below 2^53.
- Client.Bumped: retry counters are unbounded naturals. The u32 `*count += 1` would overflow only after 2^32 rounds.
- Client.RunRounds: the `while` of `run_client` runs one round per input ACK batch and stops when the batches run out. Termination under loss is not claimed, because `run_client` keeps resending an unacknowledged packet forever (Client.RetryCeiling).
- Server.ReceiveAll: the receive loop runs over a finite input. If the input ends before FINISH, `finished` is false; `run_server` would keep waiting.
- Server.Truncate: a datagram longer than the 8192-byte buffer is modelled as cut to its first 8192 bytes, as `recv_from` does on Linux.
- Server.Collect: the arbitrary iteration order of `HashMap::values()` is modelled as an arbitrary choice of the next key, and nothing is claimed about that order.
- Server.Bag and Server.InOrder are specification functions (ghost). The executable path is Collect, SortByNumber and the extend loop in Finalize.
- The client's ACK receive buffer is 8 bytes, so a longer ACK datagram is cut. Only its first four bytes matter, and the `size >= 4` test gives the same answer either way; the cut is not modelled separately.
- The comment at src/client.rs:110 says a packet past the retry ceiling is removed from `pending_packets`. The code at src/client.rs:108-111 only logs it and keeps it pending. The model follows the code (Client.RetryCeiling).
