# LibNRG, modelled and verified in Dafny

LibNRG keeps a set of entities on a server identical on every client, over UDP. This project
models its four layers and proves what they promise to one another.

**Snapshots.** Every tick the server records one delta. For each player it merges all deltas behind
the tick that player last acknowledged, and sends the merge; the client parses it onto its entities.
`Deltas` and `Merges` hold the merge on lists as the code performs it (one-sided entities first,
shared ones second, binary search on the result); `Worlds` says what a delta means and when the
merge means both of its parts, `Windows` what a whole window of ticks amounts to and whom it takes
to the newest world; `SnapshotWire` and `SnapshotRoundTrip` are the printer and the parser and their
round trip, `EmptyWindows` a packet without ticks; `StaleAcks` and `PlayerStates` put a whole window
through one packet. `MasterSnapshots`, `FullCopies` and `Servers` are the full copy and the tick,
`Histories` the server's history of all ticks and the ring that keeps the last ones. `GamePackets` is
the header in front of a snapshot and the acknowledgement that answers it, `UpdateRuns` when a player is
sent anything. `Replication` runs all of it for one client, packets and acknowledgements being the bytes
that are sent, with losses, repeats, reordering and stale acknowledgements;
`Acknowledgements` is which tick those are taken for, `StrayReads` and `OvertakenRuns` what reading
a packet too late does. `ArrayMerges` is what merging does to array fields. `DeltaSnapshots`,
`ClientStates`, `RingBuffers`, `PlayerStates`, `MasterSnapshots` and `Servers` contain the classes;
each method is proved against the functions of the modules above.

**Connections.** `Connections` is the receiving end (sixteen-bit sequence number, 32-bit history,
fragment slots), `ConnectionRuns` its behaviour over whole runs against an unbounded filter,
`Reassembly` fragments in any order, `Leftovers` fragments that a packet never completed leaves
behind, `Sending` the fragmenting sender, `Flags` what becomes of a packet's flags on the way,
`Delivery` sender and receiver over runs of many packets.

**Protocols.** `Messages`, `MessageManagers` and `MessageRuns` are the reliable messages: bytes,
class, and two managers over a channel that loses packets. `Handshakes` and `HandshakeStates` are
the opening handshake over a network that loses, repeats and reorders. `StateManagers` switches
from one protocol state to the next, `Transitions` says over runs when and what is sent meanwhile.

**What these rest on.** `Packets` (the growing cursor buffer), `PacketHeaders`, `Varints`,
`BitIO`, `Codecs`, `ArrayFields`, `Queues`, `IdAssigners`; `Divisions` is arithmetic.

A field's value is represented by its image, the bytes its owner writes. Time, random numbers, the
number of players and the answers of user code are parameters. A packet stored inside another
object (a fragment, a sent datagram) is a byte sequence; packets that methods write to and read
from are objects of class `Packets.Packet`.

## Where the code does less than it intends

Each of these is a lemma below, with the exact condition under which the intended law holds.

- The merged field list is ordered exactly when every one-sided entity with fields precedes every
  shared one (`Merges.MergeOrderedIff`); the binary searches of the next merge and of the writer
  are exact exactly on ordered lists (`Deltas.SearchExactIff`), and
  `Worlds.UnorderedMergeHidesFields` is the smallest case where updates are lost.
- In terms of the ticks of a window: all its merges are ordered exactly when at every tick the
  entities it shares with the ticks before come last (`Windows.WindowOrderedIff`).
- A creation followed by a partial update merges into a partial update, which a client without the
  entity rejects (`Worlds.MergePreservesMeaning`, `Windows.StaleAckAbsorbed`, both exact).
- An array field's bytes are the elements changed in one tick, and a merge keeps the newest bytes
  alone. Elements that only earlier ticks changed never reach a client that missed those ticks:
  `ArrayMerges.ElementLost` is an int[8] of which tick 1 sets element 0 and tick 2 element 1;
  `ArrayMerges.MergedArrayIff` is the exact condition over any window. An entity whose fields are all
  updated counts as created although an array among them is sparse
  (`ArrayMerges.CreatedFromSparseIff`).
- `addEntity` and `removeEntityByID` demand that no id is listed twice in a tick. Registering, and
  unregistering a registered entity, keep that exactly when the id is not listed yet, and the other
  operations always keep it: the contracts of `Servers.Server.RegisterEntity`,
  `Servers.Server.UnregisterEntity`, `Servers.Server.MarkEntityUpdated` and
  `Servers.Server.SetField`. So it breaks by changing then unregistering
  (`Servers.ChangeThenUnregister`), registering then unregistering
  (`Servers.RegisterThenUnregister`) and unregistering then registering under the reused id
  (`Servers.UnregisterThenRegister`) between two ticks; the last one loses the creation
  (`Servers.CreationLost`).
- The full copy takes an unchanged field from its old bytes at the sum of the sizes before it, some of
  which have been overwritten by then: right whatever the fields hold exactly when those sizes add up
  to what they did (`FullCopies.AlwaysRightIff`, `MasterSnapshots.RewrittenIff`); a string that
  changes its length spoils the fields behind it (`FullCopies.StringInFront`).
- A packet that a newer one has overtaken is dropped by its OUT_OF_ORDER flag, but not just behind a
  wrap of the sequence number: it is read if and only if it is late by more than the newest raw number
  (`ConnectionRuns.LateReadIff`, `Replication.StrayIff`, `Replication.MistakenIff`). The client then
  pieces two worlds together, and is at a published one exactly when `StrayReads.StrayReadIff` says
  so; `OvertakenRuns.NeverPublished` is a run that ends at a world never published. In runs without
  such an arrival, and without the other failures of replication in this list (`Replication.Proper`),
  the client is always at a published world and never goes back (`Replication.AlwaysPublished`,
  `Replication.NeverBack`).
- An acknowledgement is sixteen bits of a millisecond clock. It is taken for the tick it is of exactly
  while the ring holds that tick and no newer one has the same bits
  (`Acknowledgements.ResolvesIff`). Otherwise the player is sent the full copy or a merge behind a
  later tick (`Acknowledgements.ResolvesLater`), which a client that has not reached that tick reads
  as `StrayReads.StrayReadIff` says.
- `reset()` leaves a snapshot's section counts. When the acknowledged id is also that of the newest
  tick (`Acknowledgements.NewestNamedIff`), the player is sent an empty window under the counts of the
  snapshot before; the client reads on into the messages unless all three are zero
  (`EmptyWindows.EmptyWindowIff`).
- An entity whose flags a tick has cleared, registered again, is recorded as a partial update, which
  clients reject: creatable exactly with every field flagged (`Servers.CreatableIff`).
- The full copy has no DEL section: a client that already holds entities ends up right exactly when
  each of them is still there (`MasterSnapshots.MasterOntoHoldingIff`).
- The comment at src/nrg_connection.cpp:77 says that states need to know about retransmissions of
  the newest packet; the code drops them as duplicates (`ConnectionRuns.RepeatsDropped`).
- OUT_OF_ORDER compares raw sequence numbers: right up to the wrap (`ConnectionRuns.FlaggedIff`).
- The comment at include/nrg_connection.h:43 says that CONTINUED is not handed on; it is, like every
  other flag (`Flags.FlagsArriveIff`).
- All datagrams of one packet carry one sequence number, and CONTINUED on the last one too, so a
  split packet is never put together. Over any run exactly the packets of one datagram are delivered,
  if and only if no fragment ever fills the last gap in a row of 32 fragments of different packets,
  each one number older than the one in the slot behind it (`Delivery.DeliveredIffWhole`,
  `Delivery.PieceCompletesIff`); with fewer than 32 datagrams to a packet that cannot happen
  (`Delivery.ShortDelivered`).
- A fragment is written behind whatever its slot still holds: what incomplete packets left in any
  slots goes into the next packet's payload, which comes out as sent exactly when each slot was empty
  by the time its fragment came (`Leftovers.LeftoversSpoilIff`, `Delivery.PieceAloneIff`).
- A varint of 2^31 or more shifts out of `int` on decoding (`Varints.RoundTrip`); a message
  stamped later than its packet makes such a varint (`Messages.BatchReadsBackIff`), and so does a ping
  that large (`GamePackets.HeaderReadsBackIff`).
- Every message of a batch but the first is sent with the difference between its packet's time and its
  own, and the reader takes that difference for the time itself. The handler is given the right
  creation time exactly for the first message, and for one created at half its packet's time, in
  sixteen bits (`Messages.CreationTimeIff`).
- The sequence number in front of a snapshot is advanced after it has been written, so it grows by the
  ticks between the two updates before; a client that counts the ticks it missed by it is right exactly
  when two gaps in a row agree (`UpdateRuns.SequenceLagsIff`).
- An acknowledgement staler than the batch before the oldest queued one empties the message queue
  (`MessageRuns.AckExactIff`). Across the wrap of the batch number, an acknowledgement from that batch
  on removes exactly what it covers if and only if it is not of a batch numbered 255 with later ones
  queued, nor of the last of 256 batches queued at once, that one being numbered otherwise
  (`MessageRuns.AckWrappedIff`; `MessageRuns.WrapDropsUnsent` is the smallest instance).
- An array field with no index marked is read as "all of it" unless its indices take four bytes
  (`ArrayFields.EmptySetFramedIff`), and an index out of bounds is skipped correctly only for
  one-byte elements (`ArrayFields.BadIndexSkipsIff`), because the arguments of that seek are swapped.
- A server that is in the transition for more than ten seconds without an update fails although the
  acknowledgement has come (`Transitions.ServerLeavesIff`).
- STATE_CHANGE carries the exit bit, so changing away from the last state ends the manager
  (`StateManagers.ChangeWithNothingLeft`).
- A read's guard subtracts unsigned numbers and lets a read pass on a packet shorter than the
  value (`Packets.ReadGuardExact`).

## Model

| member | source | states |
|---|---|---|
| Packets.BigEndianRoundTrip | include/nrg_packet.h:81-96 | a number that fits n bytes is what its n network-order bytes read back as |
| Packets.BigEndianSurjective | include/nrg_packet.h:104-119 | every byte string is the network-order form of the number it reads as |
| Packets.MostSignificantFirst | include/nrg_packet.h:81-96 | byte i is the digit of weight 256^(n - 1 - i) |
| Packets.ReadGuardExact | include/nrg_packet.h:106-111 | the unsigned guard means "n bytes remain" if and only if the packet holds n bytes in all |
| Packets.OverwriteBytes | src/nrg_packet.cpp:90-98 | an overwrite in the middle of a packet changes exactly the bytes under it |
| Packets.Packet.Resize | src/nrg_packet.cpp:160-167 | doubling keeps every byte and the cursor |
| Packets.Packet.WriteArray | src/nrg_packet.cpp:90-98 | the contents become the old ones overwritten at the cursor, growing as needed |
| Packets.Packet.Write8 | src/nrg_packet.cpp:66-73 | one byte overwritten or appended at the cursor |
| Packets.Packet.ReadBE | include/nrg_packet.h:104-119 | the number at the cursor, which moves behind it; with too few bytes left the cursor stays; contents unchanged |
| Packets.Packet.Seek | src/nrg_packet.cpp:143-154 | the cursor lands at the offset from the beginning, the cursor or the end, and where it is for any other origin, clamped to the used part |
| Packets.ClampNext | src/nrg_packet.cpp:143-154 | the clamped cursor is the place in the packet next to where the seek aims |
| Packets.Packet.Assign | src/nrg_packet.cpp:53-60 | the other packet's bytes and cursor, the other packet untouched |
| Packets.WriteThenReadBE | include/nrg_packet.h:81-119 | a number written at the end, read from where it was written, comes back |
| PacketHeaders.HeaderRoundTrip | include/nrg_packet_header.h:51-69 | a header survives the wire if and only if its fragment index fits five bits |
| PacketHeaders.ReadHeader | include/nrg_packet_header.h:51-62 | four bytes are consumed or, on a shorter packet, none |
| Varints.RoundTrip | include/nrg_varint.h:49-77 | decode of encode gives the value and leaves the tail if and only if the value is below 2^31; otherwise the shift overflows |
| Varints.LeastSignificantFirst | include/nrg_varint.h:65-77 | byte i is the digit of weight 128^i, with the highest bit set on every byte but the last |
| Varints.DecodesGroups | include/nrg_varint.h:49-63 | of any bytes at all the decoder takes those up to the first below 128, as far as the width allows, and gives what they say in that width |
| Varints.EncLength | include/nrg_varint.h:65-77 | an encoding never exceeds 1 + (bits - 1) / 7 bytes |
| Varints.RequiredBytes | include/nrg_varint.h:92-97 | requiredBytes is the length of the encoding |
| Varints.Encode | include/nrg_varint.h:65-77 | the loop writes the base-128 form, whatever surrounds the cursor |
| Varints.DecodePacket | include/nrg_varint.h:49-63 | the loop computes the decoding function, value, cursor and length |
| Varints.ShiftDefinedIff | include/nrg_varint.h:59 | of every group of every width: the decoder's shift in int is defined if and only if the group fits below bit 31; from the sixth on it never is |
| Varints.ZigZagInterleaves | include/nrg_varint.h:40-43 | zigzag maps 0, -1, 1, -2, ... to 0, 1, 2, 3, ... |
| Varints.ZigZagBijection | include/nrg_varint.h:40-48 | zigzag and zagzig undo each other in both directions |
| Varints.SignedRoundTrip | include/nrg_varint.h:122-145 | signed values round-trip exactly when their zigzag form is below 2^31 |
| BitIO.PackHolds | include/nrg_bit_io.h:43-76 | bit i of the stream is where the reader's mask looks for it |
| BitIO.HighestFirst | include/nrg_bit_io.h:47-51 | bit i of the stream is the bit of weight 2^(7 - i % 8) of byte i / 8 |
| BitIO.PackSize | include/nrg_bit_io.h:65-76 | n bits take exactly 1 + (n - 1) / 8 bytes |
| BitIO.ReadBitOfPack | include/nrg_bit_io.h:94-107 | every read gives the bit written there, wherever the packet's cursor was in between |
| BitIO.BitsComeRound | include/nrg_bit_io.h:94-107 | behind the end of the packet the last byte's bits come round again |
| BitIO.BitWriter.Write | include/nrg_bit_io.h:43-57 | one more bit is on the stream |
| BitIO.BitWriter.Flush | include/nrg_bit_io.h:65-76 | everything written is in the packet, zero padded |
| Codecs.ReadImage | include/nrg_codec.h:40-134 | an image of any kind reads back as itself, whatever surrounds it, and nothing more is consumed |
| Codecs.ReadFailsIff | include/nrg_codec.h:40-134 | which reads fail, kind by kind, and where they leave the cursor and the value; one that succeeds moves by the length it reports |
| Codecs.ReadFieldFrom | include/nrg_codec.h:40-134 | the decode methods compute the reading function, also where too little is left |
| Deltas.SearchExactIff | src/nrg_deltasnapshot.cpp:123-138 | the binary search finds exactly each entity's own fields if and only if the list is ordered by entity |
| Deltas.UnionLookup | src/nrg_deltasnapshot.cpp:32-42 | the union is ascending and has, for every id, the newer record if there is one |
| Merges.MergeRunsFields | src/nrg_deltasnapshot.cpp:201-215 | the merged run of a shared entity assigns the newer bytes over the older ones |
| Merges.MergeRunsAscending | src/nrg_deltasnapshot.cpp:201-215 | its field numbers are ascending again |
| Merges.MergeOf | src/nrg_deltasnapshot.cpp:176-216 | the merged fields of every entity: deletion masks, newer bytes win, nothing else is lost |
| Merges.MergeGrouped | src/nrg_deltasnapshot.cpp:176-216 | each entity's fields stay contiguous |
| Merges.MergeWellFormed | src/nrg_deltasnapshot.cpp:154-235 | merging well-formed ordered deltas of stable types gives a well-formed delta |
| Merges.MergeOrderedIff | src/nrg_deltasnapshot.cpp:172-216 | the merged list is ordered if and only if one-sided entities with fields precede shared ones |
| Merges.MergeIntoEmpty | src/nrg_deltasnapshot.cpp:154-235 | merging into a snapshot just reset gives the other snapshot, ordered |
| Worlds.StepDeterministic | src/nrg_snapshot.cpp:119-194 | a delta takes a world to at most one world |
| Worlds.ChangeOfMerge | src/nrg_deltasnapshot.cpp:154-235 | for every entity, the merge says the composition of what its parts say |
| Worlds.ComposeExact | src/nrg_deltasnapshot.cpp:34-42 | the composition applies, with the same result, if and only if the record it keeps fits what was held |
| Worlds.MergePreservesMeaning | src/nrg_deltasnapshot.cpp:154-235 | where two deltas take w to w2, their merge does if and only if w holds what it updates partially, with the recorded type |
| Windows.StaleAckAbsorbed | src/nrg_serverstate.cpp:250-267 | the merge of a window takes a client at any world of the window to the newest world if and only if, for every entity named, the last tick that names it deletes it, updates it as the client holds it, or creates it where the client holds nothing of another type |
| Worlds.UnorderedMergeHidesFields | src/nrg_deltasnapshot.cpp:176-203 | two ticks whose merge hides an entity's updates from the binary search |
| Windows.MergeAllLookup | src/nrg_deltasnapshot.cpp:154-170 | the merge of a window records of every entity what the last tick that names it did |
| Windows.CarriesIff | src/nrg_deltasnapshot.cpp:172-216 | it holds fields of an entity if and only if some tick since the entity's last deletion gave it some |
| Windows.WindowOrderedIff | src/nrg_deltasnapshot.cpp:172-216 | all merges of a window are ordered if and only if at every tick the entities it shares with the ticks before come after those only one side names |
| Windows.SameEntitiesInOrder | src/nrg_deltasnapshot.cpp:172-216 | ticks that all name the same entities are always in order |
| ArrayMerges.MergeAllField | src/nrg_deltasnapshot.cpp:201-215 | of every field the merge of a window holds exactly the bytes the last tick wrote since the entity was last deleted |
| ArrayMerges.MergedArrayIff | include/nrg_field.h:207-258 | a client anywhere in a window that reads the merged image of an array field has the newest array if and only if the newest image is dense or it already has every element that only earlier unseen ticks marked |
| ArrayMerges.FollowsInTurn | include/nrg_field.h:207-258 | reading every tick's image in turn always follows the array |
| ArrayMerges.ElementLost | src/nrg_deltasnapshot.cpp:209-215 | two ticks, each setting one element of eight: the merge loses the first |
| ArrayMerges.CreatedFromSparseIff | src/nrg_deltasnapshot.cpp:63-81 | with all fields updated the record is full even with a sparse array; a client creating the entity has the array if and only if it was sent whole or the prototype agrees with the rest |
| SnapshotRoundTrip.ReadAllRun | src/nrg_snapshot.cpp:151-154 | a full record reads back as the fields it carries |
| SnapshotRoundTrip.ReadMarkedEntity | src/nrg_snapshot.cpp:172-186 | hopping between bitmap and data reads exactly the marked fields and ends behind both |
| SnapshotRoundTrip.ReadBack | src/nrg_deltasnapshot.cpp:96-152 | reading a written ordered delta applies it and stops at the first byte behind it if the client holds what is updated partially; otherwise the packet is rejected |
| EmptyWindows.EmptyWindowIff | src/nrg_deltasnapshot.cpp:89-104 | a snapshot reset and merged with nothing reads back as nothing, whatever follows it, if and only if the counts it kept are zero |
| StaleAcks.DescribesMerge | src/nrg_deltasnapshot.cpp:154-235 | merging keeps every field well encoded for its registered type |
| StaleAcks.WindowDelivered | src/nrg_serverstate.cpp:250-283 | a window merged, written and read takes a client from any world of it to the newest if the client holds every entity whose last record is partial, and is rejected if not |
| DeltaSnapshots.FindField | src/nrg_deltasnapshot.cpp:181-182 | the linear find returns the entity's first field |
| DeltaSnapshots.LowerBoundField | src/nrg_deltasnapshot.cpp:123 | the halving search computes the search of the model, ordered or not |
| DeltaSnapshots.DeltaSnapshot.Reset | src/nrg_deltasnapshot.cpp:89-94 | records and data are emptied, the three counts stay |
| DeltaSnapshots.DeltaSnapshot.AddEntity | src/nrg_deltasnapshot.cpp:63-81 | the entity's record and every updated field are appended, and one count goes up |
| DeltaSnapshots.DeltaSnapshot.RemoveEntityById | src/nrg_deltasnapshot.cpp:83-87 | a deletion record is appended and counted |
| DeltaSnapshots.DeltaSnapshot.MergeWithNext | src/nrg_deltasnapshot.cpp:154-235 | in place, this snapshot becomes the merge of both, and the counts equal the sections' true sizes |
| DeltaSnapshots.DeltaSnapshot.WriteToPacket | src/nrg_deltasnapshot.cpp:96-152 | what is appended is the wire form of records and counts |
| ClientStates.ClientGameState.ReadFromPacket | src/nrg_snapshot.cpp:119-194 | entities and cursor end where the parsing function says, known or rejected |
| ClientStates.ClientGameState.OnRecvPacket | src/nrg_clientstate.cpp:195-252 | a packet under OUT_OF_ORDER or too short changes nothing; of any other the header is taken in, even when the snapshot behind it is rejected |
| ClientStates.ClientGameState.WriteAck | src/nrg_clientstate.cpp:274-281 | the acknowledgement names the tick of the header taken in last |
| GamePackets.HeaderReadsBackIff | src/nrg_serverstate.cpp:279-280 | the client reads tick, sequence number and ping as sent and stops where the snapshot starts, if and only if the ping is below 2^31 |
| GamePackets.AckReadsBack | src/nrg_clientstate.cpp:274-281 | the server reads the tick named and, in sixteen bits, the client's time, and stops where the input starts |
| GamePackets.AckNamesTick | src/nrg_serverstate.cpp:221-224 | what the server reads in a client's answer is the id of the tick in the packet the client read, whatever followed in either |
| RingBuffers.RingBuffer.Push | include/nrg_ringbuffer.h:97-104 | the newest element is added and, when the ring is full, the oldest goes |
| RingBuffers.RingBuffer.Moves | include/nrg_ringbuffer.h:62-71 | the iterators step through the window, oldest to newest and back |
| RingBuffers.RingBuffer.FindFromEnd | src/nrg_serverstate.cpp:253 | the reverse find stops behind the newest match, or at the start |
| RingBuffers.RingBuffer.DistanceToEnd | src/nrg_serverstate.cpp:262 | distance counts the elements up to the end, around the wrap |
| PlayerStates.BehindUnique | src/nrg_serverstate.cpp:253 | the window behind an acknowledgement is determined by "match, and no newer match" |
| PlayerStates.ServerPlayerGameState.OnRecvPacket | src/nrg_serverstate.cpp:212-224 | what `ReadAck` reads: a short packet is refused, an old one only resets the unacknowledged count, a new one moves the baseline and the client's time and leaves the cursor behind both |
| PlayerStates.ServerPlayerGameState.Update | src/nrg_serverstate.cpp:240-288 | the packet is the header and the merge of exactly the window behind the acknowledged tick, or the full copy once the ring has lost it; the player's state moves as `UpdateRuns` describes over runs |
| PlayerStates.UpdateDelivered | src/nrg_serverstate.cpp:250-283 | end to end: from any world of the window, the client that reads the packet is at the newest world, with the messages next |
| UpdateRuns.UpdateSentIff | src/nrg_serverstate.cpp:235-238 | in every run a round sends a player an update if and only if since the player was last heard fewer than 16 have gone out and no full copy, and the tick's id is not that of the last merge |
| UpdateRuns.UpdateKindIff | src/nrg_serverstate.cpp:250-275 | in every run an update is the full copy if and only if nothing was heard in order since the last one or the ring does not hold the tick named; it merges nothing if and only if the newest tick bears that name |
| UpdateRuns.LastHeardKept | src/nrg_serverstate.cpp:212-224 | in every run the tick and the client's time that are kept are those of the last packet heard in order |
| UpdateRuns.RingIdsAre | src/nrg_serverstate.cpp:250-253 | the ids these runs search are those of the server's ring |
| UpdateRuns.QuietPlayers | src/nrg_serverstate.cpp:274-275 | nobody silent is sent more than 16 updates, nor anything behind a full copy |
| UpdateRuns.SequenceLagsIff | src/nrg_serverstate.cpp:261-285 | the sequence number a client sees grows by the gap of the update before: right if and only if two gaps in a row agree |
| Histories.ChronicleGrows | src/nrg_server.cpp:178-200 | each tick extends the history of deltas and worlds, and the ring goes on holding its newest stretch |
| Histories.RingRecords | src/nrg_server.cpp:178-200 | the ring always records the last worlds of the whole history |
| Histories.KeptGrows | include/nrg_ringbuffer.h:97-104 | the ring goes on holding the last 31 ticks under their ids |
| Replication.AlwaysPublished | src/nrg_serverstate.cpp:212-288 | over every run of ticks, deltas, full copies, losses, repeats, reordering and stale acknowledgements in which each event is proper, no late packet being read above all, a client that still plays is exactly at one of the published worlds |
| Replication.NeverBack | src/nrg_clientstate.cpp:195-252 | and it never goes back to an earlier one |
| Replication.StopsOnlyOnUnknown | src/nrg_snapshot.cpp:119-194 | it stops playing only on a delta packet that updates partially an entity it does not hold |
| Replication.DeltaPacketIsRing | src/nrg_serverstate.cpp:250-283 | the packet of the run is, byte for byte, the one written from the ring behind the position the search for the acknowledged id ends at |
| Replication.AcksNameTicks | src/nrg_clientstate.cpp:195-281 | in every proper run each acknowledgement ever sent, read by the server, gives the id of the tick the client was at |
| Replication.StrayIff | src/nrg_clientstate.cpp:195-206 | a packet within half the sequence space is read late if and only if it is new to the window and late by more than the newest raw number |
| Replication.MistakenIff | src/nrg_connection.cpp:71-75 | outside of it if and only if the number it passes for is wanted and newest, or so late |
| StrayReads.StrayReadIff | src/nrg_snapshot.cpp:119-194 | a delta read by a client at any tick gives the world pieced together from the client's and the packet's newest; that is a given published world if and only if that one is so pieced together |
| OvertakenRuns.NeverPublished | src/nrg_clientstate.cpp:195-252 | a run, proper up to its last event, after which the client is at a world never published and has gone back |
| Acknowledgements.ResolvesIff | src/nrg_serverstate.cpp:253 | an acknowledgement is taken for its own tick if and only if the ring holds that tick and no newer one has the same sixteen bits |
| Acknowledgements.ResolvesLater | src/nrg_serverstate.cpp:253-271 | otherwise it is taken for a newer tick, or the full copy goes out |
| Acknowledgements.ResolveIsBehind | src/nrg_serverstate.cpp:253-258 | that is where the search in the ring ends |
| Acknowledgements.NewestNamedIff | src/nrg_serverstate.cpp:253-258 | the window is empty if and only if the acknowledged id is that of the newest tick |
| MasterSnapshots.Snapshot.AddEntity | src/nrg_snapshot.cpp:53-81 | the record is rewritten field by field, each copied field taken from where the sizes rewritten so far put it; all other records stay |
| MasterSnapshots.RewrittenIff | src/nrg_snapshot.cpp:69-80 | the rewritten record is the entity's if and only if every copied field is |
| FullCopies.AlwaysRightIff | src/nrg_snapshot.cpp:75-77 | a copied field is right whatever the entity holds if and only if the fields in front of it take as many bytes together as when they were recorded |
| FullCopies.StringInFront | src/nrg_snapshot.cpp:75-77 | an unchanged number behind a string that got shorter is copied from a byte too early; behind one that got longer the copy leaves the old bytes |
| MasterSnapshots.Snapshot.RemoveEntityById | src/nrg_snapshot.cpp:84-87 | exactly that record goes |
| MasterSnapshots.Snapshot.WriteToPacket | src/nrg_snapshot.cpp:94-109 | one FULL section with every record |
| MasterSnapshots.MasterIsFullDelta | src/nrg_snapshot.cpp:94-109 | the full copy's bytes are those of a delta that creates every entity |
| MasterSnapshots.MasterReadBack | src/nrg_snapshot.cpp:94-109 | a client without entities that reads the full copy holds exactly the world it represents |
| MasterSnapshots.MasterOntoHoldingIff | src/nrg_snapshot.cpp:94-109 | a client that already holds entities ends up in the published world if and only if each of them is still there |
| MasterSnapshots.MasterReadsAsReplay | src/nrg_server.cpp:178-200 | one read of a full copy equals replaying the delta of every tick it represents from the empty world |
| Servers.SortIncreasing | src/nrg_server.cpp:184 | sorting distinct ids gives the same ids, increasing |
| Servers.TickWellFormed | src/nrg_server.cpp:186-199 | the tick's delta is well formed and ordered |
| Servers.TickStep | src/nrg_server.cpp:186-199 | it takes the published world to what the entity table now means |
| Servers.Server.RegisterEntity | src/nrg_server.cpp:259-268 | the entity is in the table and listed for the next tick; no id is listed twice if and only if none was and this one was not listed |
| Servers.Server.UnregisterEntity | src/nrg_server.cpp:270-276 | a registered entity leaves the table and is listed; no id is listed twice if and only if none was and this one was not listed |
| Servers.Server.MarkEntityUpdated | src/nrg_server.cpp:278-283 | an entity is listed once however often it is marked, which never lists an id twice |
| Servers.Server.Tick | src/nrg_server.cpp:178-200 | the new delta steps from the last published world to the current one and joins history and ring under its id, the full copy represents the current world, flags and list are cleared |
| Servers.Server.ReadsAsReplay | src/nrg_server.cpp:178-200 | after any run of the server's operations, one read of the full copy brings an empty client exactly where replaying the delta of every tick so far would |
| Servers.Server.RingIsRecent | src/nrg_server.cpp:178-200 | after any run the ring holds the newest deltas of the history, all up to 31 of them, between the newest worlds and under the ids of their ticks |
| Servers.ChangeThenUnregister | src/nrg_server.cpp:270-283 | a change followed by unregistering always lists an id twice |
| Servers.RegisterThenUnregister | src/nrg_server.cpp:259-276 | so does registering followed by unregistering |
| Servers.UnregisterThenRegister | src/nrg_server.cpp:259-276 | and unregistering followed by registering under the same id |
| Servers.CreationLost | src/nrg_server.cpp:186-199 | of the two records of an entity listed twice the merge keeps the second, which updates nothing and is not full: the creation is lost |
| Servers.RecordFullIff | src/nrg_deltasnapshot.cpp:63-81 | a record is full if and only if every field is flagged |
| Servers.CreatableIff | src/nrg_snapshot.cpp:172-175 | a client without the entity can create it from a tick's record if and only if every field was flagged; otherwise the record is one it rejects |
| Connections.ConnectionIn.AddPacket | src/nrg_connection.cpp:50-160 | header, filter, slots, flags and result change exactly as the receiving function says |
| Connections.ConnectionIn.AdmitPacket | src/nrg_connection.cpp:65-103 | the duplicate filter on the fields themselves |
| Connections.ConnectionIn.AgeSlots | src/nrg_connection.cpp:88-94 | every used slot ages, and those too old are emptied |
| Connections.ConnectionIn.CheckComplete | src/nrg_connection.cpp:128-135 | the loop decides whether the slots up to the first without CONTINUED hold consecutive ages |
| Connections.ConnectionIn.Flush | src/nrg_connection.cpp:143-149 | the slots whose ages count down are joined into the packet and emptied |
| Connections.ConnectionIn.GetLatestPacket | src/nrg_connection.cpp:166-172 | the newest packet is handed over once |
| ConnectionRuns.PerceivedIff | src/nrg_connection.cpp:71 | sixteen bits name the right number if and only if it lies within half the sequence space of the newest |
| ConnectionRuns.AdmitsWanted | src/nrg_connection.cpp:65-103 | the shift register admits exactly what a filter remembering every number would, with the true age |
| ConnectionRuns.MisjudgedIff | src/nrg_connection.cpp:71-75 | outside that range a packet is admitted if and only if the number it passes for would be |
| ConnectionRuns.RunTracks | src/nrg_connection.cpp:65-151 | in every reachable state, across wraps: history bit k is set if and only if newest - k was accepted, and a slot's age is newest minus the stored fragment's number, unused slots being empty |
| ConnectionRuns.EveryRunTracks | src/nrg_connection.cpp:65-151 | the same holds in every run at all, of the numbers as the receiver perceives them |
| ConnectionRuns.AcceptedOnce | src/nrg_connection.cpp:95-98 | no datagram is ever accepted twice |
| ConnectionRuns.FlaggedIff | src/nrg_connection.cpp:156 | OUT_OF_ORDER is raised if and only if 0 < age <= the newest sequence number; a flagged packet is truly older |
| ConnectionRuns.ReachesIff | src/nrg_connection.cpp:95-160 | an ordinary datagram reaches the owner unflagged if and only if the unbounded filter wants it and it is the newest or older by more than the newest raw sequence number |
| ConnectionRuns.LateReadIff | src/nrg_connection.cpp:156 | an overtaken datagram is handed on as if in order if and only if its age exceeds the newest raw sequence number |
| ConnectionRuns.LateAcrossWrap | src/nrg_connection.cpp:156 | number 65535 after number 65536 is handed on unflagged |
| ConnectionRuns.RepeatsDropped | src/nrg_connection.cpp:77-98 | a repeat within the window changes nothing, the newest packet and retransmissions included |
| ConnectionRuns.FinishedOnlyAsNewest | src/nrg_connection.cpp:105-107 | the end of the stream is handed on if and only if nothing newer has been seen |
| Flags.FlagsArriveIff | src/nrg_connection.cpp:156-157 | of every datagram accepted, each of the eight flag bits is handed on if and only if it is in the header, or is OUT_OF_ORDER and the newest raw number is larger |
| Flags.FlagsStay | src/nrg_connection.cpp:53-107 | a datagram that does not count leaves the flags of the last one that did |
| Flags.RefusedIff | src/nrg_connection.cpp:61-107 | a datagram is refused if and only if it is of another version, which changes nothing, or is wanted, claims the end of the stream and is not the newest |
| Flags.SentFlagsTravel | src/nrg_connection.cpp:181-219 | every flag bit the caller gave a packet is handed on at the other end, whatever the connection, if and only if given; CONTINUED also for split packets, OUT_OF_ORDER by lateness alone |
| Flags.FlagsTravel | src/nrg_connection.cpp:195-219 | the same from any header, the one of a disconnect included |
| Flags.ResentFlagsTravel | src/nrg_connection.cpp:224-229 | a resend arrives with the flags of the packet and RETRANSMISSION |
| Flags.WithoutIff | src/nrg_connection.cpp:186 | masking a flag clears that bit and no other |
| Reassembly.MissingOne | src/nrg_connection.cpp:127-135 | while a fragment is missing the packet is not complete |
| Reassembly.AllHere | src/nrg_connection.cpp:127-149 | with all fragments present the flush yields their payloads in order |
| Reassembly.AnyOrder | src/nrg_connection.cpp:111-151 | for 2 to 32 fragments with consecutive numbers, in any order with any repeats: nothing before the last missing one, then exactly once the payloads in order |
| Reassembly.AnyOrderFromFresh | src/nrg_connection.cpp:111-151 | in particular from a fresh connection |
| Reassembly.ReadyForNext | src/nrg_connection.cpp:143-149 | afterwards the connection is ready for the packet numbered behind it |
| Leftovers.AnyOrderOver | src/nrg_connection.cpp:88-149 | over anything left in the slots, fragments in any order with any repeats hand over nothing before the last one, and then one packet, each fragment of it behind what its slot still held when it came |
| Leftovers.LeftoversSpoilIff | src/nrg_connection.cpp:118-125 | that packet is the one sent if and only if every one of its slots was empty, or too old to be kept, when its fragment came |
| Leftovers.YoungLeftoversSpoilIff | src/nrg_connection.cpp:88-94 | while nothing left ages out meanwhile: if and only if all its slots are empty |
| Leftovers.EveryRunLitters | src/nrg_connection.cpp:65-151 | every run leads to such a state: no complete packet ever lies in the slots |
| Sending.DatagramShapes | src/nrg_connection.cpp:195-222 | max(1, ceil(n / 1396)) datagrams of at most 1400 bytes, whose payloads are the packet |
| Sending.DatagramHeaders | src/nrg_connection.cpp:195-219 | indices 0, 1, 2, ... modulo 32, one sequence number, CONTINUED on all of several |
| Sending.ResendAlike | src/nrg_connection.cpp:224-229 | a resend differs in the RETRANSMISSION bit of each header only |
| Sending.ConnectionOut.SendPacketWithHeader | src/nrg_connection.cpp:195-222 | the loop sends the datagrams in order until the socket fails |
| Sending.ConnectionOut.SendPacket | src/nrg_connection.cpp:181-193 | the sequence number advances and wraps, the packet is kept for resending, the caller's cursor is restored |
| Sending.ConnectionOut.ResendLastPacket | src/nrg_connection.cpp:224-229 | the last packet's datagrams go out again, marked |
| Sending.ConnectionOut.SendDisconnect | src/nrg_connection.cpp:231-243 | the same with the FINISHED flag |
| Delivery.DeliveredIffWhole | src/nrg_connection.cpp:181-219 | over any run of arrivals of what is sent for many packets, from any state such runs reach: exactly the packets of one datagram are handed over, once each, in the order first seen, if and only if no fragment fills the last gap in a row of 32 |
| Delivery.PieceCompletesIff | src/nrg_connection.cpp:118-151 | a fragment as sent completes something if and only if it goes into its slot and all 32 slots are then in step |
| Delivery.PieceAloneIff | src/nrg_connection.cpp:122 | a fragment is alone in its slot if and only if the slot was empty |
| Delivery.ShortDelivered | src/nrg_connection.cpp:181-219 | with fewer than 32 datagrams to a packet, every run from a fresh connection delivers exactly the packets of one datagram |
| Messages.BatchReadsBackIff | src/nrg_message_manager.cpp:102-190 | a written batch runs exactly its handlers in order, each with its own arguments and the time its timestamp is taken for, if and only if no later message is stamped after the packet |
| Messages.EntriesReadBack | src/nrg_message_manager.cpp:159-187 | the same from any message of the batch on, whatever follows the batch |
| Messages.CreationTimeIff | src/nrg_message_manager.cpp:161-185 | a handler is given the time its message was created if and only if the message is the first of its batch or twice its time is the packet's, in sixteen bits |
| Messages.StopsIff | src/nrg_message_manager.cpp:160-188 | reading goes on behind a message if and only if it has a timestamp, a handler and something of its arguments; otherwise it fails there, with the handlers before it called |
| Messages.AlwaysAcknowledged | src/nrg_message_manager.cpp:137-155 | a packet acknowledges and names its batch whatever becomes of the messages in it; an empty one is refused, one that ends behind the acknowledgement is not |
| Messages.AddedLast | src/nrg_message_manager.cpp:84-100 | a message is added behind all others, and its age at any later time is the time since |
| Messages.WriteExpiresIff | src/nrg_message_manager.cpp:107-111 | writing removes n messages if and only if exactly the first n are at least 65535 ms old, up to the first that is not |
| Messages.WritesAllIff | src/nrg_message_manager.cpp:102-135 | the queue stays as it is if and only if its oldest message is younger than that, and a manager not waiting then writes all of it |
| MessageManagers.TileAt | src/nrg_message_manager.cpp:90-99 | the metadata tile the live buffer: offset 0 first, each next one where the last ended, each slice that message's bytes |
| MessageManagers.QueueDropped | src/nrg_message_manager.cpp:44-58 | copying the rest across and shifting the offsets leaves the remaining messages as they were |
| MessageManagers.MessageManager.AddMessage | src/nrg_message_manager.cpp:84-100 | the message joins the queue under the current or the next batch number |
| MessageManagers.MessageManager.RemoveMessagesUntil | src/nrg_message_manager.cpp:34-60 | exactly the messages before the first to stay leave, and the buffers swap |
| MessageManagers.MessageManager.WriteToPacket | src/nrg_message_manager.cpp:102-135 | expired messages leave, and the packet gets acknowledgement and batch as the function written out in `Messages` says |
| MessageManagers.MessageManager.ReadFromPacket | src/nrg_message_manager.cpp:137-190 | acknowledged messages leave, and the handlers called, with arguments and times, are those the parsing function names |
| MessageRuns.SentIsWritten | src/nrg_message_manager.cpp:102-135 | while the oldest message is younger than 65535 ms, a packet of the protocol is what writing puts on the wire |
| MessageRuns.ReceivedIsRead | src/nrg_message_manager.cpp:137-190 | and receiving it is what reading those bytes does |
| MessageRuns.AckCutsAt | src/nrg_message_manager.cpp:143-147 | an acknowledgement of everything before a closed batch removes exactly that |
| MessageRuns.HandledInOrder | src/nrg_message_manager.cpp:84-190 | in every run over a lossy ordered channel, both ways: messages handled, in order of first delivery, are a prefix of those added, and what has left the queue is a prefix of that |
| MessageRuns.PairValid | src/nrg_message_manager.cpp:63-74 | every reachable manager keeps its fields within their types |
| MessageRuns.Drains | src/nrg_message_manager.cpp:102-157 | from any reachable state three undisturbed packets, before any message expires, get everything handled and the queue empty |
| MessageRuns.AckExactIff | src/nrg_message_manager.cpp:143-147 | an acknowledgement removes exactly the acknowledged batches if and only if it is not staler than the batch before the oldest; a staler one empties the queue |
| MessageRuns.AckWrappedIff | src/nrg_message_manager.cpp:143-147 | for up to 256 consecutive batches, wrapped or not: an acknowledgement leaves exactly the later batches if and only if it is not of a batch numbered 255 with later ones queued, nor of the last of 256, unless numbered 255 |
| MessageRuns.WrapDropsUnsent | src/nrg_message_manager.cpp:146 | the smallest instance: after batch 255 an acknowledgement drops a batch never sent |
| Handshakes.JoinJudged | src/nrg_serverstate.cpp:76-116 | a client's join request gets through if and only if names agree, its version is accepted and there is room, and otherwise the first failing check decides |
| Handshakes.JudgedIff | src/nrg_serverstate.cpp:76-116 | for every byte sequence: the exact condition of each answer by the bytes themselves; the challenge goes to requests with the library's six version bytes, the server's name, four bytes of an accepted version, and room |
| Handshakes.TakenIff | src/nrg_serverstate.cpp:67-137 | for every packet: it is taken if and only if it is a join request long enough to judge or nine bytes of answer to a challenge; any packet but an empty one asks for an update |
| Handshakes.AnswerTakenIff | src/nrg_clientstate.cpp:62-105 | for every answer: a waiting client takes nine bytes under the challenge command as a challenge, thirteen under the acceptance command with their versions and id, and twelve or more otherwise as a rejection |
| Handshakes.AnswerDecides | src/nrg_clientstate.cpp:62-152 | after the answer it takes, a client's next update echoes those very bytes if they are a challenge, goes into the game if they are an acceptance, and fails otherwise |
| Handshakes.EchoOnly | src/nrg_serverstate.cpp:118-136 | only the server's own challenge, echoed byte for byte after a valid join, leads to acceptance, and any other nine bytes of echo to a refusal |
| Handshakes.AcceptedOnlyAfterProof | src/nrg_serverstate.cpp:67-183 | in every run: an accepted client was accepted, holds the id and versions the server sent it, and was accepted only after a join request whose bytes are valid and then an echo of the challenge; honest parties never see a wrong challenge |
| Handshakes.JoinDecides | src/nrg_serverstate.cpp:149-183 | the server gives the client up after its request if and only if a check fails |
| Handshakes.ChallengeCompletes | src/nrg_clientstate.cpp:62-154 | from the challenge on, undisturbed packets, each due when it is sent, end with the client accepted and gone on into the game |
| Handshakes.UpdateDueIff | src/nrg_serverstate.cpp:139-141 | in every run the server wants an update if and only if a packet has come since its last challenge, the client if and only if it is not waiting for an answer to a packet of its own |
| Handshakes.ClientEndsIff | src/nrg_clientstate.cpp:110-152 | in every run a client's update leads into the game if and only if the acceptance has come and it is not timed out, and gives up if and only if it is the sixth timed out in a row |
| HandshakeStates.ServerHandshakeState.OnRecvPacket | src/nrg_serverstate.cpp:67-143 | response and result as the server's function says |
| HandshakeStates.ServerHandshakeState.Update | src/nrg_serverstate.cpp:149-183 | challenge, acceptance or failure, and what is sent |
| HandshakeStates.ClientHandshakeState.OnRecvPacket | src/nrg_clientstate.cpp:62-105 | phase, challenge, and the versions and id of an acceptance as the client's function says |
| HandshakeStates.ClientHandshakeState.Update | src/nrg_clientstate.cpp:111-150 | join, echo or result, what is sent, and the last packet sent again on each of the first five timeouts and at no other time |
| StateManagers.SwitchingIsSound | src/nrg_state_manager.cpp:126-174 | in every run each state is initialised once, before any packet or update; the active one is none, the top, or the transition above two states; n states switch at most 2(n - 1) times |
| StateManagers.StepMeasure | src/nrg_state_manager.cpp:159-167 | every switch lowers stack height or leaves the transition |
| StateManagers.ChangeWithNothingLeft | src/nrg_state_manager.cpp:159-171 | with one state left a change is a failure |
| Transitions.ServerLeavesIff | src/nrg_state_manager.cpp:49-98 | in every run a server goes on to the next state if and only if an update finds the acknowledgement come since it entered, no resend pending and at most ten seconds gone; it fails if and only if more are gone and no resend is pending; nothing else ends the transition |
| Transitions.ServerResendsIff | src/nrg_state_manager.cpp:50-96 | it sends its last packet again if and only if an update that can send finds a retransmission come since the last such update, and nothing else; packets reach no state |
| Transitions.ClientLeavesIff | src/nrg_state_manager.cpp:45-90 | in every run a client goes on if and only if its acknowledgement has gone out and a packet has come in, in either order; it fails if and only if that is its sixth time-out with nothing heard |
| Transitions.ClientSendsIff | src/nrg_state_manager.cpp:45-86 | it sends its acknowledgement at the first update that can send and again at five time-outs; every packet is passed on to the next state |
| Transitions.StateAskedIff | src/nrg_state_manager.cpp:126-174 | in every run an ordinary state receives every packet, is asked if and only if it wants an update or has not been asked for longer than it allows, and its answer leads into the transition, to failure or nowhere |
| StateManagers.TransitionState.Update | src/nrg_state_manager.cpp:72-109 | the transition's next step on client and server, exactly what is sent and when the last packet is sent again |
| StateManagers.StateManager.AddState | src/nrg_state_manager.cpp:122-124 | the state is on top of the stack, and a manager ready to run stays so |
| StateManagers.StateManager.OnRecvPacket | src/nrg_state_manager.cpp:126-135 | activation and forwarding as the model says, of which `Transitions` gives the meaning over runs |
| StateManagers.StateManager.Update | src/nrg_state_manager.cpp:137-174 | activation, timeout, update and switch as the model says, and what is sent meanwhile |
| ArrayFields.ArrayRoundTripIff | include/nrg_field.h:207-249 | with something marked, the reader holds the writer's array if and only if all of it was sent or the two agreed on the rest; the reader stops where the writer did |
| ArrayFields.ArrayReadsBack | include/nrg_field.h:207-249 | reader and writer choose the same form, and the marked elements are taken over |
| ArrayFields.DenseReads | include/nrg_field.h:207-216 | a dense read of any packet gives each element the number at its place, and zero where the packet has no room for it |
| ArrayFields.ListReads | include/nrg_field.h:217-228 | any list of indices and elements is read for what it says, to its end, if its indices are in bounds or its elements single bytes, those out of bounds being left out |
| ArrayFields.EncodedLength | include/nrg_field.h:231-249 | index header plus the smaller of the dense and the sparse size; the changed elements are listed one by one unless all of them take less |
| ArrayFields.EmptySetFramedIff | include/nrg_field.h:207-233 | with nothing marked the framing holds if and only if indices take four bytes |
| ArrayFields.BadIndexSkipsIff | include/nrg_field.h:223-225 | an out-of-bounds element is skipped if and only if elements are one byte, or two at the packet's last three |
| ArrayFields.ArrayField.Set | include/nrg_field.h:260-266 | the element changes and is marked if the value is new |
| ArrayFields.ArrayField.SetUpdated | include/nrg_field.h:255-258 | clearing the field's flag unmarks every element, setting it marks none |
| ArrayFields.ArrayField.ShiftData | include/nrg_field.h:251-253 | the received array becomes the current one |
| ArrayFields.ArrayField.WriteToPacket | include/nrg_field.h:231-249 | the encoding is appended, its length returned |
| ArrayFields.ArrayField.ReadFromPacket | include/nrg_field.h:207-229 | the array takes over what the decoding function says |
| Queues.Queue.Push | include/nrg_queue.h:40-45 | the element is behind all others, the order kept across doubling, and the array is never left full |
| Queues.Queue.Pop | include/nrg_queue.h:48-54 | the oldest element leaves |
| Queues.Queue.Clear | include/nrg_queue.h:57-59 | nothing is left in the queue, its buffer stays |
| Queues.Queue.Expand | include/nrg_queue.h:72-83 | relocation puts a full buffer's elements in order, oldest first |
| Queues.Queue.Size | include/nrg_queue.h:62-64 | the number of elements, also around the wrap |
| Queues.FullRotation | include/nrg_queue.h:40-45 | the buffer that a push fills up, read from its head, is the queue with the new element |
| IdAssigners.AlwaysLeast | include/nrg_util.h:44-60 | in every run the next id is the least not in use, live and reusable ids partition what was handed out, and that is as many as were ever live at once |
| IdAssigners.AcquireKeepsIff | include/nrg_util.h:47-55 | taking an id keeps this if and only if the id type has not run out |
| IdAssigners.ReissuedAfterWrap | include/nrg_util.h:49 | after that an id in use is handed out again |
| IdAssigners.IdAssigner.TakeId | include/nrg_util.h:47-55 | the class acquires as modelled |
| IdAssigners.IdAssigner.GiveBack | include/nrg_util.h:56-59 | the class releases as modelled |

## Left out

- Delivery of packets split over several datagrams, end to end: it does not happen (`Delivery.DeliveredIffWhole`), so `Reassembly` and `Sending` treat the two sides separately.
- Worlds.ChangeOfMerge: fields whose bytes are the whole value; an array field's bytes are a change to the value, and `Codecs.Kind` has no array kind. What merging does to array fields is `ArrayMerges`.
- Worlds.ComposeExact: excludes array fields, like Worlds.ChangeOfMerge.
- Worlds.MergePreservesMeaning: excludes array fields, like Worlds.ChangeOfMerge; `ArrayMerges.MergedArrayIff` is the condition for them.
- Windows.StaleAckAbsorbed: excludes array fields, like Worlds.ChangeOfMerge; `ArrayMerges.MergedArrayIff` is the condition for them.
- StaleAcks.DescribesMerge: excludes array fields, for which `Codecs.Kind` has no kind.
- StaleAcks.WindowDelivered: excludes array fields, for which `Codecs.Kind` has no kind.
- PlayerStates.UpdateDelivered: excludes array fields, for which `Codecs.Kind` has no kind.
- Replication.AlwaysPublished: excludes array fields; in runs where each event is `Proper`, which names its demands: one type per id, merges in order and behind the tick acknowledged, no stray packet read, no full copy to a client that holds an entity since gone. A packet longer than one datagram counts as lost (`Delivery.DeliveredIffWhole`), and so does one sent as an empty window (`EmptyWindows`).
- Replication.NeverBack: in the runs of Replication.AlwaysPublished.
- Replication.StopsOnlyOnUnknown: in the runs of Replication.AlwaysPublished.
- MasterSnapshots.Snapshot.AddEntity: excludes copies that reach outside of the old bytes, which the code reads past (`FullCopies.StringInFront` has one), and unchanged fields of an entity not yet recorded, which the source asserts not to occur.
- Array fields inside the full copy, because they write only their changed indices.
- An id that changes its type while a client holds it: `TypesKept` in `StaleAcks.WindowDelivered` and `NoClash` in `SnapshotRoundTrip.ReadBack` exclude it; what the client does then is not modelled.
- SnapshotRoundTrip.ReadBack: excludes array fields; counts are the exact ones, which a merge establishes; a snapshot that is reset and sent without a merge is `EmptyWindows.EmptyWindowIff`.
- MessageRuns.Drains: while no message queued is 65535 ms old; what is written later is `Messages.WriteExpiresIff`.
- Replication.AcksNameTicks: in the runs of Replication.AlwaysPublished.
- ClientStates.ClientGameState.OnRecvPacket: the messages behind the snapshot are read elsewhere, and whether they could be read decides the rest of the return value.
- Pings of 2^31 ms and more, in runs of replication.
- ClientStates.ClientGameState.WriteAck: the input and the messages behind the acknowledgement, and the rest of `update`, are not covered.
- UpdateRuns.SequenceLagsIff: where the server finds the tick of the update before, which is one that merged something or the full copy; a full copy itself counts as one tick.
- PlayerStates.ServerPlayerGameState.OnRecvPacket: covers the acknowledgement and the client's time; the player's input and the messages behind it are read elsewhere, and their result decides the rest of the return value.
- PlayerStates.ServerPlayerGameState.Update: the branch for a player who has timed out, the messages appended behind the snapshot and the sending of the packet are not covered.
- Packets.Packet.ReadBE: excludes a packet that holds fewer than n bytes in all, where the guard passes and the read leaves the packet (`Packets.ReadGuardExact`).
- Servers.Server.Tick: requires that no id is listed twice, as `addEntity` and `removeEntityByID` do, and that fields in front of an unchanged one keep their sizes; when the first holds is stated exactly by the operations that list ids, why the second is needed by `FullCopies.AlwaysRightIff`.
- Servers.Server.RegisterEntity: requires every field to be flagged, as those of a new entity are; what registering an entity with cleared flags leads to is `Servers.CreatableIff`.
- The ring hands out references to its slots; here it holds values, so a delta is complete when it enters.
- DeltaSnapshots.DeltaSnapshot.MergeWithNext: the two set operations that append to `entities` and truncate it again are computed into a list of their own.
- The tie test at src/nrg_deltasnapshot.cpp:210 is read as applying while both iterators are on the entity.
- MessageRuns.HandledInOrder: fewer than 256 batches, and packets written while the oldest message queued is younger than 65535 ms; delivery is at least once, since the receiver does not filter repeats.
- Messages.BatchReadsBackIff: a handler's arguments are read from left to right; C++ leaves that order open.
- Handshakes.AcceptedOnlyAfterProof: the two handshake states alone; the packets go through `Connections` without being re-framed here.
- ConnectionRuns.AcceptedOnce: needs every arrival within half the sequence space of the newest; `ConnectionRuns.EveryRunTracks` has no such condition and speaks of perceived numbers.
- Connections.ConnectionIn.AddPacket: the test for a fragment index of 32 or more cannot fail after parsing five bits and is omitted; the packet transformation (compression) is taken as absent.
- Sending.ConnectionOut.SendPacket: the socket either takes a datagram or fails; addresses and error codes are not modelled.
- StateManagers.SwitchingIsSound: states are registered, each once, before the first packet or update.
- ArrayFields.ArrayField.ReadFromPacket: excludes a packet shorter than a single value, where the read guard passes and the read leaves the packet.
- ArrayFields.ArrayField.WriteToPacket: assignment of a whole array, which marks no index, is not modelled.
- Queues.Queue.Pop: requires a queue that is not empty, as the source's comment does; a moved-from slot keeps its old value here.
- Inputs on which a varint's shift leaves `int` are excluded from the classes' contracts and from the runs; what the code does there is undefined.
- Packets start with room for at least eight bytes; the source's constructor accepts less.
- Interpolation, prediction, ping and interval statistics, events, the client's updated flags, replay, timers, zlib, addresses and version ordering.
