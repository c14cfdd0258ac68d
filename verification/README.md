# g2cd in Dafny

g2cd is a Gnutella2 hub. This project models its hard core in Dafny 4.11 and proves it correct: the packet
codec, the split and reassembly of datagrams, the tree of query hash tables, the timer protocol, and the
indexes that have to agree with something simple. `dafny verify dfyconfig.toml` checks everything.

## What is modelled

- **Packets** (`Packets`, `Buffers`, `Extraction`, `Decoder`, `Connection`, `Serializer`). A packet is a tree of
  name, byte order, children and data. `Packets` gives the reference encoding and parse; the classes and
  methods of the other modules are the switch machines and loops of the source on position/limit buffers.
  Main results: `Packets.RoundTrip` and `Serializer.WriteTree` (encode, then decode),
  `Connection.Connection.ReceiveAll` and `ReceiveTrees` (any cutting of a stream), `Serializer.ResumesExactly`.
- **Datagrams** (`Datagrams`, `Reception`, `Knots`, `Reassembly`, `ReasRuns`, `ReasCache`, `EndToEnd`). The sender's
  windows and overlaid headers, the receiver's header check, bitmap, knot list and cache. Main results:
  `EndToEnd.Convey` (a tree through datagrams in any order, with losses, repetitions and other traffic),
  `ReasRuns.FiresOnce`, `Datagrams.SendOverlaid`.
- **Query hash tables** (`Registry`, `DirtyMarks`, `DirtyRuns`, `DirtyPass`, `DirtyTables`, `QhtTables`, `QhtSearch`,
  `QhtUpdate`, `QhtPatch`). The 4-ary tree, the dirty marks that race with the updater (a state machine over the steps
  of both), aggregation and search in one scratch buffer, and the cutting and patching of tables. Main results:
  `DirtyRuns.RunKeeps`, `QhtUpdate.DeliveredThroughout`, `QhtUpdate.RootHasLeaves`, `QhtPatch.Transfer`,
  `Registry.HashesToChains`.
- **Timers** (`Timers`). Callers, the timer thread and the calls its callbacks make as interleaved steps over two
  kinds of lock. Main results: `Timers.CancelIsFinal`, `Timers.NeverEarly`, `Timers.RearmedIsBack`,
  `Timers.SomebodyGoesOnIff`, `Timers.CallsReturn`.
- **Indexes** (`AgedCache`, `TypeTable`, `QueryKeys`, `Injection`). The known-hub and query-key caches against the
  map of newest reports, the generated packet-type table against a linear scan of the names, the ring of salts,
  and a child put in front of a packet's raw payload.

`Arithmetic`, `Bits`, `Options`, `Seqs` and `Sets` hold what the others share.

## Where the code does not do what one would expect

The model follows the code. Each point has the exact condition, and an example where there is an input that shows it.

- The encoder, stopped inside the children, goes on behind them (`Serializer.ResumesExactly`,
  `Serializer.StopInsideChildrenLosesThem`), so a packet sent in several datagrams arrives whole only if its children
  fit the first (`Datagrams.PiecesAreWhole`), and otherwise not at all (`EndToEnd.Convey`).
- A reassembled packet is lost when a buffer ends inside a header field (`Reassembly.PacketReasamble`,
  `Reassembly.CutNameIsLost`).
- A datagram whose payload begins with the tag of a datagram is ignored, so a packet one of whose later windows
  begins so never arrives (`EndToEnd.Convey`, `EndToEnd.LaterPartMayHaveTwo`).
- Part 0 of several is looked at and has no bit in the bitmap (`Reception.BitmapAccess`,
  `Reception.PartZeroIsOpened`).
- Repetitions behind the completing datagram can complete a set a second time (`ReasRuns.FiresOnce`,
  `ReasRuns.SecondCompletion`).
- The guard of the searches lets one hash pass that a leaf's table is too short for (`QhtUpdate.DeliveredExactly`,
  `QhtUpdate.ShortTableIsOverrun`).
- A short table that is the first to be aggregated leaves what was in the storage behind it (`QhtUpdate.AggregateExact`,
  `QhtUpdate.LeftoverShows`).
- A clean bucket hands nothing to its parent's new table (`QhtUpdate.CleanBucketIsHidden`,
  `QhtUpdate.CleanBucketIsMissed`).
- Without internal compression a patch on a table that was reset or is kept encoded does not get into the table
  (`QhtPatch.Transfer`, `QhtPatch.ResetPatchIsLost`).
- The check for a gap between fragments never finds one (`QhtPatch.Offer`, `QhtPatch.PatchedIff`,
  `QhtPatch.GapIsNotSeen`).
- The binary search for a type runs out of the table for keys below its first word (`TypeTable.BisectIs`,
  `TypeTable.SearchMayLeave`).
- A timer may be found late, never early (`Timers.RunsOutIff`, `Timers.MayRunOutLate`, `Timers.NeverEarly`).
- A callback that calls a timer function while another thread adds or cancels its timer can stop both for ever; the
  connection's own lock, outside timeout.c, is what keeps the hub's callbacks from it (`Timers.SomebodyGoesOnIff`,
  `Timers.CallbackMayDeadlock`).
- Preparation has a branch that shortens a packet that is too long; no input gets through it, and `Serializer.Prep`
  shows that such packets are refused.

## Model

| member | source | states |
|---|---|---|
| `Packets.ControlByteFields` | G2PacketSerializer.c:940-969 | every control byte the encoder makes has length-of-length, name length, compound and endianness in their bits and is read back so, except that a control byte that would be all zero is sent as compound |
| `Packets.LengthOfBytes` | G2PacketSerializer.c:149-187 | for every size up to 0xFFFFFF and both byte orders, the length field written in the number of bytes that preparation chooses is read back as that size |
| `Packets.LengthBytesAre` | G2PacketSerializer.c:1022-1085 | the length field has the lowest byte of the size first, or last in a big-endian packet |
| `Packets.ReadyMade` | G2Packet.c:507-508 | the encoding of the two packets that the source keeps ready made is byte for byte theirs |
| `Packets.HeaderReadsBack` | G2PacketSerializer.c:108-247 | a written header is read back whatever bytes follow it, and leaves exactly those bytes for the payload; an empty packet never counts as compound |
| `Packets.EncodedDecodesOne` | G2PacketSerializer.c:291-382 | in front of any other bytes, an encoded tree decodes to one packet with the tree's name and payload and leaves the other bytes; no packet begins with the terminator byte |
| `Packets.KidsRoundTrip` | G2PacketSerializer.c:405-506 | any list of encodable children followed by any data decodes to the same children and the same data, with the terminator in between; without data the terminator may be there or not |
| `Packets.RoundTrip` | G2PacketSerializer.c:985-1187 | for every encodable tree, decoding header, children and data of its wire form gives back the tree |
| `Packets.WireRoundTrip` | G2PacketSerializer.c:291-506 | any encodable tree followed by any bytes decodes, header, children and data, to the tree, and the bytes behind it are left over untouched |
| `Packets.EncodeInjective` | G2PacketSerializer.c:985-1187 | no two encodable trees share a wire form |
| `Buffers.Buffer.Flip` | lib/sec_buffer.h:111-115 | what had been written is what can be read |
| `Buffers.Buffer.Compact` | lib/sec_buffer.h:117-130 | the unread bytes lie at the front and all the rest is open for writing |
| `Extraction.ReadStable` | G2PacketSerializer.c:108-247 | a verdict on a byte string (a packet, or malformed) is never changed by bytes that arrive later |
| `Extraction.BadStays` | G2PacketSerializer.c:108-247 | a stream that has gone bad stays bad behind the same packets, however it goes on |
| `Extraction.InPacket.StageControlByte` | G2PacketSerializer.c:108-133 | refuses, waits or goes on in agreement with the reference parse of what is unread; going on leaves every future verdict of the parse as it was |
| `Extraction.InPacket.FetchLength` | G2PacketSerializer.c:149-187 | the number read byte by byte is the value of the length field in the byte order of the packet |
| `Extraction.InPacket.StageLength` | G2PacketSerializer.c:149-187 | refuses a length field only if the reference parse refuses the packet, waits only for missing bytes, and a length it accepts keeps header and payload within the maximum and every future verdict as it was |
| `Extraction.InPacket.FetchName` | G2PacketSerializer.c:203-247 | finds a name legal exactly when all its bytes are printable ASCII, and then fetches all of them |
| `Extraction.InPacket.StageType` | G2PacketSerializer.c:203-247 | refuses a type name only if the reference parse refuses the packet, waits only for missing bytes, and otherwise keeps every future verdict of the parse |
| `Extraction.InPacket.StartPayload` | G2PacketSerializer.c:582-630 | exactly when the payload is taken without copying as it lies in the buffer, when it is waited for there, and when it is copied: never waited for if the buffer cannot hold it or has to be emptied |
| `Extraction.InPacket.GrabPayload` | G2PacketSerializer.c:704-724 | what has been copied is what had been copied followed by the bytes consumed now; it stops short only when the buffer is empty |
| `Extraction.InPacket.Extract` | G2PacketSerializer.c:531-756 | one call, from any state and any unread bytes: success, failure and need for more agree with the reference parse of everything fed so far; the payload is the same on the path that copies and the path that does not; a packet that waits never leaves a full buffer behind, and in the mode that empties the buffer only the beginning of a cut header field remains |
| `Extraction.Verdicts` | G2PacketSerializer.c:531-756 | from any point of progress there is a reference parse for the extractor to agree with, and a complete packet uses up at least one byte |
| `Decoder.Decode` | G2PacketSerializer.c:291-382 | the decoder on a buffer succeeds exactly when the reference parse of its unread bytes finds a packet, returns that packet and leaves what the parse leaves |
| `Decoder.NextChild` | G2PacketSerializer.c:405-506 | each call yields the next child, the data behind the terminator or failure, as the reference decoding of the remaining payload says |
| `Decoder.Walk` | G2PacketSerializer.c:405-506 | walking all children of all levels gives exactly the tree that the reference decoding gives, failure included |
| `Connection.Connection.HandleOne` | G2Handler.c:524-594 | one pass of the reread loop delivers the next packet of the stream, dismisses the connection exactly for a malformed one, or saves a packet that goes on where the stream stopped |
| `Connection.Connection.OnRead` | G2Handler.c:363-597 | a read event with any bytes that fit keeps the packets delivered so far equal to the packets of all bytes so far; with a buffer of at least 8 bytes there is always room for the next read |
| `Connection.Connection.ReceiveAll` | G2Handler.c:522-597 | for every byte stream and every way of cutting it into reads, with compaction in between, the packets delivered and the verdict are those of one parse of the whole stream; it never stalls |
| `Connection.Connection.ReceiveTrees` | G2Handler.c:522-597 | the wire form of any list of trees, cut into reads in any way, is delivered as exactly those trees, in order, and the connection stays |
| `Extraction.StreamOfTrees` | G2PacketSerializer.c:531-756 | a stream of encoded trees is read as those trees and nothing else |
| `Serializer.PrepKids` | G2PacketSerializer.c:1217-1238 | children are accepted exactly when each is, and the size is the sum of what they put on the wire |
| `Serializer.Prep` | G2PacketSerializer.c:1208-1285 | succeeds exactly for trees within nesting depth, name and size limits; the size it returns is the number of bytes on the wire; preparing does not change the wire form |
| `Serializer.EmitKids` | G2PacketSerializer.c:1111-1128 | children go out one after the other: the target holds the longest part of their wire forms that fits, and nothing else of it changes |
| `Serializer.SerializePrepared` | G2PacketSerializer.c:985-1187 | from any state of the encoder and for any room: the bytes written are the longest part of the pending bytes that fits, the rest of the target is untouched, and the state left behind stands for the rest, or, if the room ended inside the children, for what follows the children |
| `Serializer.Serialize` | G2PacketSerializer.c:1190-1202 | a packet that nobody prepared is prepared first: refused exactly when preparation refuses, with the target untouched, and finished if the whole wire form fits |
| `Serializer.ResumesExactly` | G2PacketSerializer.c:1111-1133 | for every packet and room: an interrupted encoder goes on with exactly the missing bytes if and only if the room did not end inside the children |
| `Serializer.StopInsideChildrenLosesThem` | G2PacketSerializer.c:1120-1127 | a packet of five bytes, ready to be written into a buffer of three: the first three bytes are there, the encoder counts as finished, and two bytes are never written |
| `Serializer.LeafResumes` | G2PacketSerializer.c:1130-1168 | a packet that writes no children resumes anywhere, and is finished exactly when everything fitted |
| `Serializer.EmitThrough` | G2PacketSerializer.c:985-1187 | for such a packet any sequence of windows, however small, emits the same bytes as a single write and finishes exactly when the windows together are large enough |
| `Serializer.TreeWire` | G2PacketSerializer.c:985-1187 | the wire form of the encoder's packets is the reference encoding of the tree they are made from |
| `Serializer.TreeAccepted` | G2PacketSerializer.c:1208-1285 | every encodable tree is accepted by preparation |
| `Serializer.WriteTree` | G2PacketSerializer.c:985-1187 | any encodable tree, prepared and written into a large enough target, decodes from the bytes in the target to the same tree, and nothing is left over |
| `Knots.UpToBehind` | G2UDP.c:847-857 | a part that was missing puts its payload between the earlier and the later ones |
| `Knots.InsertKeeps` | G2UDP.c:847-857 | inserting any missing part keeps the buffers in order, their bytes equal to the received payloads in part order, and the numbers at their edges sound, also where a part straddles two buffers |
| `Knots.OptimizeKeeps` | G2UDP.c:675-721 | a merge pass over any list of buffers in order keeps the order, the concatenated bytes and the soundness of the numbers at the edges |
| `Knots.PassHalves` | G2UDP.c:675-721 | a merge pass over buffers that follow each other and fit together two by two halves their number |
| `Knots.StayAdjacent` | G2UDP.c:675-721 | a buffer that took in only the beginning of the next is full, loses no byte, and can go on with it in the next pass |
| `Knots.FirstPart` | G2UDP.c:675-721 | once part 1 is there, the first buffer begins with all of it |
| `Reassembly.RecvMask` | G2UDP.c:823-831 | the mask is zero exactly when every word of the bitmap is the wanted one, for every count up to 255 |
| `Reassembly.MaskExact` | G2UDP.c:820-831 | the words are the wanted ones exactly when exactly the parts 1..count have been received |
| `Reassembly.IndexInside` | G2UDP.c:813-820 | for any part number that fits its byte the bitmap is accessed inside its words if and only if the part is not 0 |
| `Reassembly.ReasEntry.Insert` | G2UDP.c:847-857 | the loop over the linked list inserts before the first higher number |
| `Reassembly.ReasEntry.Optimize` | G2UDP.c:675-721 | the merge loop does what the merge of neighbours from front to back does |
| `Reassembly.ReasEntry.AddPart` | G2UDP.c:813-867 | part 0, and no other, has no bit; a repeated part changes nothing; a new one is added to the received payloads and to the list, with a merge pass and a second one at the end, and the set is reported complete exactly when parts 1..count are all there |
| `Reassembly.PacketReasamble` | G2UDP.c:514-673 | for any list of buffers: the packet at the head of their bytes comes out if and only if there is one and no buffer ends inside a header field |
| `Reassembly.HeaderInFirstPart` | G2UDP.c:614-637 | if the header lies in part 1, no buffer ends inside a header field |
| `Reassembly.ParsedSet` | G2UDP.c:514-673 | with the header in part 1, the outcome of reassembly is the parse of the payloads concatenated in part order |
| `Reassembly.CutNameIsLost` | G2UDP.c:633-636 | the same three bytes, cut inside the type name, are a packet and yet do not come out |
| `ReasRuns.NeverFires` | G2UDP.c:723-895 | over any run of datagrams of a set that lacks a part, nothing completes |
| `ReasRuns.Fires` | G2UDP.c:723-895 | once all parts are there the set completes at the last missing one, with exactly the sent contents, and the rest of the run starts from nothing |
| `ReasRuns.FiresIff` | G2UDP.c:723-895 | a run in any order and with any repetitions completes if and only if every part occurs |
| `ReasRuns.FiresOnce` | G2UDP.c:723-895 | it completes exactly once if and only if the repetitions behind the completing datagram do not themselves contain every part |
| `ReasRuns.SecondCompletion` | G2UDP.c:723-895 | a set of two whose datagrams come twice completes twice |
| `ReasRuns.FilledPayload` | G2UDP.c:847-867 | the complete set's payload is the concatenation of the contents in part order |
| `ReasCache.Cache.Evict` | G2UDP.c:769-797 | a full cache gives up a set that is older than now and no newer than any other, or, if there is none, nothing |
| `ReasCache.Cache.Add` | G2UDP.c:723-895 | for every datagram that gets there: the set it belongs to takes the step that the run semantics gives it, or, exactly for part 0 of a set it belongs to, the bitmap is accessed outside; every other set, its parts and its age stay, except for one that is evicted when a new set finds the cache full; a set that changes its part count or compression is dropped |
| `ReasCache.Cache.Timeout` | G2UDP.c:489-512 | exactly the sets that waited longer than the timeout go, and the others are untouched |
| `ReasCache.Receive` | G2UDP.c:723-895 | every datagram that gets there, through cache, knot list and extractor: exactly for part 0 of a set it belongs to the bitmap is accessed outside; a set that it completes yields what reassembly makes of its parts, or if compressed what its payloads in part order inflate to; its own set goes on and is dated as Cache.Add says, and all others stay as they were, but for one that makes room |
| `Reception.DatagramReadsBack` | G2UDP.c:1342-1480 | a header made for any sequence number, part, count and flags is read back with the same fields, and a datagram is looked at exactly if part, count and flags allow it and its payload is neither empty nor begins with the tag of another datagram |
| `Reception.BitmapAccess` | G2UDP.c:1477-1507 | of the datagrams that are looked at, exactly those with part 0 access the bitmap outside its words when they get to reassembly |
| `Reception.PartZeroIsOpened` | G2UDP.c:1477-1507 | a datagram with part 0 of 2 that is looked at |
| `Reception.Open` | G2UDP.c:1355-1480 | for every datagram: the reads from its buffer accept and refuse as described for DatagramReadsBack, and the payload is what remains in the buffer |
| `Reception.Single` | G2UDP.c:1507-1616 | a packet in one datagram comes out exactly when the payload begins with a whole packet |
| `Reception.HandleAll` | G2UDP.c:1342-1616 | a run of datagrams from any senders and of any sets, with expiry in between, in a cache with room for all sets: of any uncompressed set that gets a new part within the timeout before every expiry exactly as many packets come out as its own datagrams have completions, each the parse of its contents in part order |
| `Datagrams.DatagramsAre` | G2UDP.c:1133-1166 | for any payload of at most 255 windows the datagrams have the parts 1..count, their payloads join to the whole and none exceeds the MTU |
| `Datagrams.SendNext` | G2UDP.c:1305-1320 | the header goes over bytes already sent: the datagram is header and next window, and the bytes not yet sent are undamaged |
| `Datagrams.SendOverlaid` | G2UDP.c:1272-1321 | the overlaying loop sends exactly the datagrams of the buffer's original bytes, for every length that needs at most 255 parts |
| `Datagrams.FillWindow` | G2UDP.c:1145-1155 | one datagram holds its header and as much of the pending bytes as fits, and the encoder is left with the rest, or with what follows the children if the window ends inside them |
| `Datagrams.WriteoutUc` | G2UDP.c:1133-1166 | for every packet of at most 255 windows the datagrams are exactly the pieces that the encoder, driven window by window, leaves; they are the windows of the wire form if the first does not end inside the children |
| `Datagrams.PiecesAreWhole` | G2UDP.c:1133-1166 | the pieces join to the packet if and only if the first window does not end inside the children |
| `Datagrams.WriteoutSmall` | G2UDP.c:1327-1340 | any tree that preparation accepts and that is not worth compressing goes out whole in one datagram, any other not at all |
| `EndToEnd.FirstPartHasOneTag` | G2UDP.c:1468-1475 | the first part of a packet made by the encoder never looks like a second datagram header |
| `EndToEnd.LaterPartMayHaveTwo` | G2UDP.c:1468-1475 | a packet of 495 bytes whose second datagram does, and so is ignored by the receiver |
| `EndToEnd.TransmitSet` | G2UDP.c:1342-1616 | the datagrams of any set of payloads whose first holds a packet header, in any order, with any losses and repetitions, among datagrams of any other sets: something comes out if and only if all of them arrived, none is empty and none begins with the tag, and what comes out is always the parse of the payloads in part order |
| `EndToEnd.Transmit` | G2UDP.c:1342-1616 | the datagrams of any encodable tree, in any order, with any losses and repetitions, among datagrams of any other sets: packets with its key come out if and only if all of its datagrams arrived and none has a payload beginning with the tag, and whatever comes out decodes to the tree |
| `EndToEnd.Send` | G2UDP.c:1133-1166 | any encodable tree of at most 255 windows, prepared and written out, goes out as the datagrams of the encoder's pieces; they are exactly the datagrams of its wire form if its children fit the first window |
| `EndToEnd.LostIsNoPacket` | G2UDP.c:514-673 | of a tree whose children do not fit the first window the receiver makes no packet at all, whatever else its pieces hold |
| `EndToEnd.Convey` | G2UDP.c:1133-1616 | from any sender's tree through preparation, encoder, any network, cache, reassembly and decoder: if its children fit the first window the receiver's tree is the same, under the same if and only if; otherwise no packet comes out |
| `Registry.CountBuckets` | G2ConRegistry.c:322-324 | the loop adds up to the number of buckets that a complete tree has below its root |
| `Registry.Tree.InitBucket` | G2ConRegistry.c:263-299 | lays out a complete 4-ary tree in depth-first order, uses exactly the buckets and chains it needs from the front of the storage and touches no others |
| `Registry.Init` | G2ConRegistry.c:322-333 | the storage computed beforehand is exactly what laying out the tree uses |
| `Registry.WalkIs` | G2ConRegistry.c:387-396 | every path from the root ends at the chain whose number the path spells |
| `Registry.HashesToChains` | G2ConRegistry.c:387-396 | every hash leads to a chain of the storage, and two hashes to the same one if and only if they agree modulo 4^levels |
| `Registry.EveryChainReached` | G2ConRegistry.c:387-396 | every chain is reached by a hash |
| `Registry.FindChain` | G2ConRegistry.c:387-396 | the lookup loop ends at the chain that the steps of the hash lead to |
| `Registry.MarkDirty` | G2ConRegistry.c:398-411 | the marking recursion ends at the same chain as the lookup, and marks exactly the buckets on the way, the lowest first and the root last |
| `Registry.BucketsDistinct` | G2ConRegistry.c:263-299 | different paths lead to different buckets |
| `DirtyMarks.StepKeeps` | G2ConRegistry.c:398-459 | every step of any marker or the updater keeps: each mark on a bucket or a chain with leaves has its parent marked, or a marker on its way to the parent, or the updater still to come; and each clean chain without a marker on its way has a table built from its current leaves |
| `DirtyRuns.RunKeeps` | G2ConRegistry.c:790-902 | in every state of every interleaving of one updater and any number of markers no mark is lost and every clean chain has an up-to-date table |
| `DirtyRuns.DirtyToTheRoot` | G2ConRegistry.c:398-459 | whenever nobody is at work, a marked chain with leaves has marks all the way up to the root |
| `DirtyRuns.PassCleansAll` | G2ConRegistry.c:790-902 | a pass that nobody interrupts leaves every chain with the table of its current leaves, without leaves with none, and every chain that has leaves clean |
| `DirtyPass.PassEnds` | G2ConRegistry.c:857-902 | from any point the updater, left alone, comes to the end of its pass |
| `QhtSearch.Condense` | G2QHT.c:1511-1556 | the hashes that pass a table go behind the ones looked at, in order; the break at the first too large hash loses none, and nothing in front of them changes |
| `QhtSearch.MatchLeaf` | G2QHT.c:1482-1497 | for a leaf's table of any size, plain or encoded, and ascending hashes: the loop with its guard and break finds the leaf exactly when one of the hashes is tested and its bit is clear |
| `QhtSearch.SearchChain` | G2ConRegistry.c:710-740 | the loop over a chain's connections finds exactly the matching leaves, in order |
| `QhtSearch.SearchKids` | G2ConRegistry.c:742-783 | the recursive search in one scratch buffer stays inside the buffer, finds what the search on values finds, and leaves the hashes of every level above untouched |
| `QhtSearch.CondenseFront` | G2QHT.c:1582-1598 | the condensing loop in place leaves exactly the hashes that pass the master table, in order |
| `QhtSearch.MatchLeafs` | G2QHT.c:1558-1605 | the whole search, master table first, finds what the search on values finds |
| `QhtSearch.ScratchFits` | G2QHT.c:316-334 | the number of hashes that preparation allows leaves room for the survivors of every level |
| `QhtSearch.ScratchShare` | G2QHT.c:325-334 | that number is the largest for which every level's share of the bytes holds the counters and the hashes |
| `QhtSearch.HashBelow` | G2QHT.c:336-342 | a hash number is below the number of entries of a table of up to 2^32 entries |
| `QhtSearch.HashNumberIs` | G2QHT.c:336-342 | a hash number is the highest bits of the low word of the product with the constant, for every hash and up to 32 bits |
| `QhtSearch.SearchIsFlat` | G2ConRegistry.c:742-783 | for every tree, all table sizes and all hashes: the recursive search finds the leaves, in order, for which one hash passes every table on the path and the leaf's own |
| `QhtSearch.HitsOnce` | G2ConRegistry.c:710-783 | every leaf that is hit is named exactly once, and no other |
| `QhtTables.ClearIsExact` | G2QHT.c:1489-1497 | a search looks up what a table has, unless a hash is one that lies behind the table's entries and before the limit of the guard |
| `QhtTables.CombineOver` | G2QHT.c:1785-1826 | combining over the bytes of the shorter table, into any content: the result has everything that either table has, as far as the tables of the tree go |
| `QhtTables.CombineExact` | G2QHT.c:1785-1826 | for tables of any sizes: within the bytes of the other table the result has just what either shows, a table still to be reset showing nothing, and behind them what its storage held |
| `QhtTables.CombineSameSize` | G2ConRegistry.c:847-853 | tables of one size come together exactly: the result has a hash if and only if one of them has |
| `QhtUpdate.AggregateOver` | G2QHT.c:1785-1826 | an aggregated table has everything that any of its eligible leaves has, whatever sizes their tables have, in whatever order they come and whatever was in the new table's storage |
| `QhtUpdate.AggregateExact` | G2QHT.c:1785-1826 | for leaves with tables of any size and any storage: the table of a chain has a hash if and only if an eligible leaf shows it, or the first of them has no bytes there and the storage happened to |
| `QhtUpdate.AggregateSameSize` | G2ConRegistry.c:812-838 | with leaves of the tree's size: if and only if an eligible leaf has it, whatever the storage held |
| `QhtUpdate.LeftoverShows` | G2QHT.c:1812-1816 | a leaf of 8 entries: in a tree of that size nothing of the storage shows, in a larger one a hash that no leaf has does |
| `QhtUpdate.UpdateExact` | G2ConRegistry.c:790-902 | the table that goes up from a node has a hash if and only if what is below calls for it: a dirty chain's leaves, a clean chain's table, a dirty bucket's children, from a clean bucket nothing |
| `QhtUpdate.RootExact` | G2ConRegistry.c:857-902 | after an update the root's table, filled in or not, has a hash if and only if a table that went up to it has |
| `QhtUpdate.RootHasLeaves` | G2ConRegistry.c:790-902 | with everything marked and all tables of the tree's size: if and only if some eligible leaf has it |
| `QhtUpdate.HubsStayOut` | G2ConRegistry.c:823-838 | leaving out a hub, a leaf without usable table or with too full a one does not change the table of a chain |
| `QhtUpdate.FoundAreServed` | G2ConRegistry.c:710-740 | whoever is found by a search has a usable table that is not too full, is no hub and has not dismissed queries |
| `QhtUpdate.UpdateSized` | G2ConRegistry.c:790-902 | whatever leaves send, an update keeps the size and form of the tree's tables |
| `QhtUpdate.UpdateRenews` | G2ConRegistry.c:857-902 | after an update every leaf, of any table size, whose way was marked all along is covered by every table above it |
| `QhtUpdate.SearchAfterUpdate` | G2ConRegistry.c:742-902 | right after an update pass the search finds a leaf whose way was marked all along exactly when a flat test of all hashes against the leaf's own table does, or a hash behind the end of the leaf's table leads there |
| `QhtUpdate.DeliveredExactly` | G2ConRegistry.c:710-902 | how often such a leaf gets the query: once in these two cases, and otherwise not at all |
| `QhtUpdate.DeliveredOnce` | G2ConRegistry.c:710-902 | a leaf gets the query once if its own table has one of the hashes, and otherwise not at all, if its table has the size of the tree's tables, or any other size and none of the hashes lies between its entries and the limit of the guard |
| `QhtUpdate.DeliveredThroughout` | G2ConRegistry.c:710-902 | the same after any history of update passes, marks, and connections that come, go and replace their tables |
| `QhtUpdate.LifeSized` | G2ConRegistry.c:790-902 | over any such history the tables of the tree keep their size and form |
| `QhtUpdate.ShortTableIsOverrun` | G2QHT.c:1489-1497 | a leaf with 8 entries and hash 8, in a tree of one bucket with its four chains: the guard is passed and the query goes to a leaf whose table has nothing |
| `QhtUpdate.CleanBucketIsHidden` | G2ConRegistry.c:861-901 | a clean bucket gives its parent's new table nothing: the table comes out as if the bucket were not there |
| `QhtUpdate.CleanBucketIsMissed` | G2ConRegistry.c:861-901 | a tree of two levels, with four children in every bucket, in which a matching leaf below a clean bucket is not found after an update |
| `QhtUpdate.UpdateChain` | G2ConRegistry.c:790-855 | the update of a chain, empty, clean or dirty, refines the update on values, whose effect UpdateRenews states |
| `QhtUpdate.UpdateFromRoot` | G2ConRegistry.c:857-902 | the recursion over dirty and clean buckets from the root refines the update on values, whose effect SearchAfterUpdate states |
| `DirtyTables.CleanIsUpToDate` | G2ConRegistry.c:790-902 | in every state of every run of markers and updater a chain that is clean, with no mark on its way, has a table that covers its leaves as SearchAfterUpdate wants it |
| `QhtPatch.DiffFragments` | G2QHT.c:1848-1914 | for any two tables, or one: the fragments are numbered from 1, carry the right count, are full except for the last, and join to the difference, or to the negated table |
| `QhtPatch.QhTable.AddFrag` | G2QHT.c:1985-2048 | refuses exactly the fragments that do not begin a patch, disagree with it or would exceed the table, and then changes nothing; otherwise appends and reports completeness |
| `QhtPatch.QhTable.Patch` | G2QHT.c:1653-1783 | applies all collected fragments, and the result gets into the table exactly if internal compression is on or the table was neither encoded nor reset; the table is kept encoded as the stored form says |
| `QhtPatch.Offer` | G2QHT.c:1985-2048 | any fragments, offered in turn, are reported complete if and only if they come to a point where number 1 was first, counts and compression agree, the size fits and only the last has a number that reaches the count; no other number matters |
| `QhtPatch.GapIsNotSeen` | G2QHT.c:2015-2022 | fragments 1 and 3 of 3 complete a patch, and the patched table differs from the one of all three |
| `QhtPatch.PatchedIff` | G2QHT.c:1753-1774 | for any collected bytes the patched table is the new one if and only if they are the beginning of the difference and the tables do not differ behind them |
| `QhtPatch.AppliedDelta` | G2QHT.c:1753-1774 | the difference applied to the old table, or the negated table applied to anything, is the new table |
| `QhtPatch.DeltaBits` | G2QHT.c:1884-1886 | a bit of the difference is set exactly where the tables differ, and without an old table where the new one has none |
| `QhtPatch.AppliedBits` | G2QHT.c:1753-1760 | a patch flips exactly the bits it has, or in a table that was reset clears them and sets all others it reaches; behind it nothing changes |
| `QhtPatch.FragmentsFitByte` | G2QHT.c:1848-1914 | the fragments of the largest legal table can be numbered in one byte |
| `QhtPatch.Transfer` | G2QHT.c:1653-2048 | cutting, collecting and patching, for every table length: the receiver's table is then the sender's, or, exactly where a patch does not get into the table, unchanged |
| `QhtPatch.ResetPatchIsLost` | G2QHT.c:1768-1773 | a table that was reset and patched without internal compression and does not have the new content |
| `Timers.TimeAddExact` | timeout.c:158-167 | a timeout in tenths of a second is added exactly, and the sum is normal |
| `Timers.RunsOutIff` | timeout.c:118-125 | a timer counts as run out only when its time has passed, and one whose time has passed exactly when its nanoseconds are below those of now |
| `Timers.MayRunOutLate` | timeout.c:118-125 | a timer whose time has passed and that does not count as run out |
| `Timers.StepKeeps` | timeout.c:247-480 | every step of any caller or the timer thread keeps: each lock is held by the thread whose position says so, the re-arm flag says what the timer thread is about to do, and a timer it is busy with is not in the tree |
| `Timers.RunKeeps` | timeout.c:247-480 | in every state of every interleaving locks, flags and tree agree with what each thread is doing, and a cancel that has done its work has its timer detached until it returns |
| `Timers.CancelDetaches` | timeout.c:316-348 | a cancel with both locks either has to retry because of a re-arm or leaves the timer detached |
| `Timers.DetachedStays` | timeout.c:373-480 | no step but the work of an add on it attaches a detached timer |
| `Timers.CancelIsFinal` | timeout.c:316-348 | over any interleaving: when a cancel returns, its timer is not in the tree, its callback is not running, no re-arm is pending and the timer thread has nothing to do with it, and this lasts until a later add |
| `Timers.TimerThreadFinds` | timeout.c:373-480 | the timer thread always finds the timer it locked still in the tree, and one it re-arms still out of it |
| `Timers.NeverEarly` | timeout.c:373-480 | over any interleaving with advances: a callback that starts was due, at the time it then had, before the clock reading that picked it, and no timer in the tree is due before it |
| `Timers.RearmedIsBack` | timeout.c:430-475 | over any interleaving: a timer whose callback asks for it is put back by the next reinsertion, with the new time and without the flag; in between it is out of the tree and no cancel of it gets done |
| `Timers.TimerIsRearmed` | timeout.c:430-475 | a run in which a timer fires, asks to be run again and is back in the tree |
| `Timers.TreeStep` | timeout.c:247-480 | whatever the step: a timer comes into the tree only by the work of an add or by being put back, and leaves it only by the work of a cancel or by firing |
| `Timers.DueStep` | timeout.c:247-480 | whatever the step: the time of a timer in the tree is what the add, the advance or the timer thread gave it, and otherwise stays |
| `Timers.WorkReturns` | timeout.c:247-348 | an add returns true exactly if the timer was out of the tree, an advance and a cancel exactly if it was in it, and only a cancel has to retry, exactly during a re-arm |
| `Timers.AdvanceGivesUp` | timeout.c:289-290 | an advance that does not get the lock gives up only while the timer thread has it, with the timer out of the tree |
| `Timers.AddIsThere` | timeout.c:247-314 | over any interleaving: when an add or advance returns true its timer is in the tree with the time it was given |
| `Timers.SomebodyGoesOnIff` | timeout.c:247-480 | in every state of the protocol, callbacks that call the timer functions included: somebody can go on if and only if it is not the case that the callback of a timer waits for the tree while the thread that has the tree waits for that timer's lock, or that the callback adds or cancels its own timer |
| `Timers.NobodyGoesOn` | timeout.c:247-480 | such a deadlock is for ever: nothing but further calls can happen, and they do not end it |
| `Timers.SomebodyGoesOn` | gup.c:636-658 | if callbacks call only while no other thread is adding or cancelling their timer, never add or cancel it themselves, and no thread begins to while they call, there is no deadlock in any state of any run |
| `Timers.CallsReturn` | timeout.c:247-480 | from every state of every such run there is a way on, without new calls, on which every call that is under way returns, a cancel that has to retry included, and the timer thread goes to sleep |
| `Timers.CallerNearer` | timeout.c:247-348 | every step of a caller that begins nothing brings the protocol nearer to that: fewer cancels to retry, fewer calls, or a call further on |
| `Timers.CallbackMayDeadlock` | G2ConHelper.c:406-425 | a run without that care into the deadlock: a thread cancels a timer while its callback cancels another |
| `Timers.CallbackMayStopItself` | timeout.c:316-348 | a run in which a callback that cancels its own timer stops by itself |
| `AgedCache.Cache.HtLookup` | G2KHL.c:1689-1720 | finds an address through the hash table exactly when the tree has it |
| `AgedCache.Cache.TreeRemove` | G2KHL.c:1764-1776 | tree and hash table lose exactly the one entry and stay consistent |
| `AgedCache.Cache.TreeInsert` | G2KHL.c:1740-1762 | tree and hash table gain exactly the one entry and stay sorted and consistent |
| `AgedCache.Cache.Add` | G2KHL.c:1786-1857 | after any report the entries are, for their addresses, the newest reports ever, every missing address is missing only because the cache is full of reports at least as new, tree and hash table agree and the free list is the rest; what is kept is what was kept with the report in place of an older one of the address, in a free place, or in place of the last entry if that is strictly older, and else unchanged |
| `AgedCache.Cache.CountsTop` | G2KHL.c:1660-1682 | the count is the size of the tree, and the smaller of the capacity and the number of addresses ever reported |
| `AgedCache.Cache.AddAll` | G2KHL.c:1786-1857 | after any sequence of reports into an empty cache the entries are the newest part of the map from address to newest report, and exactly the set that the rule for one report leaves when it is applied to one after the other |
| `AgedCache.TiesStay` | G2KHL.c:1732-1836 | whatever a report drives out was strictly older than it, and was of the same address or the oldest of a full cache, of equally old ones that with the lowest address |
| `AgedCache.HistoryIsNewest` | G2KHL.c:1786-1857 | the reference map holds, for exactly the public addresses ever reported, the newest report of the address, the first of those equally new |
| `AgedCache.Cache.Fill` | G2KHL.c:1859-1923 | walks the wanted entries from the newest on, wrapping round at most once, until the room is used up |
| `AgedCache.Cache.Lookup` | G2QueryKey.c:570-601 | there is an answer if and only if the address is public and in the cache, and it is the newest reported value; a reported address is missing only if the cache is full of reports at least as new |
| `TypeTable.Fill` | G2PacketTyperGenerator.c:119-151 | base rows in front, second words behind, each name represented once |
| `TypeTable.PermutedSays` | G2PacketTyperGenerator.c:163-165 | sorting the base rows does not change which names the table represents |
| `TypeTable.ChainDuplicates` | G2PacketTyperGenerator.c:177-200 | merging rows with the same first word keeps the names represented and leaves base rows strictly increasing |
| `TypeTable.Inline` | G2PacketTyperGenerator.c:212-245 | takes in every chain of one row with an empty second word but that of the last base row, removing the row; the names stay represented and all other chains intact |
| `TypeTable.Exchange` | G2PacketTyperGenerator.c:267-281 | exchanging two rows of the second tier adjusts every pointer to them |
| `TypeTable.Reorder` | G2PacketTyperGenerator.c:257-302 | all chains end up contiguous and in the order of their base rows, and still represent the same names |
| `TypeTable.Generate` | G2PacketTyperGenerator.c:108-321 | for any list of distinct names of at most seven characters: the finished table represents exactly the names, its base rows are strictly increasing, its second tier is in order and no row of it is without use |
| `TypeTable.BisectIs` | G2Packet.c:422-446 | the binary search runs below index 0 exactly for keys below the first word; otherwise it ends at the key's row if there is one |
| `TypeTable.Search` | G2Packet.c:422-446 | for every key the loop in unsigned arithmetic runs out of the base rows if the key is below the first word, and else finds the row if there is one |
| `TypeTable.SearchMayLeave` | G2Packet.c:432-446 | a legal name, a single space, looked up in the table made for the name A: the search leaves the table, where a scan says that the type is not known |
| `TypeTable.FindType` | G2Packet.c:422-501 | for every name: bisection and chain walk over a finished table return what a linear scan of the names returns, unknown included, unless the first word is below the table's first and the search leaves the table |
| `TypeTable.TypeOf` | G2Packet.c:422-501 | generator and lookup together, for any names and any searched name: the result of a linear scan, or leaving the table exactly for names below the smallest first word |
| `Injection.FrontChild` | G2PacketSerializer.c:405-506 | an encoded child in front of any payload decodes to that child followed by the same children and the same data, or to the same failure |
| `Injection.InjectedMeaning` | G2Packet.c:2865-2964 | a compound packet with an encoded child put in front of its payload decodes to the same packet with that child in front of its children, or fails as before, whatever its header says about its length |
| `Injection.Source.StealDataSpace` | G2Packet.c:5035-5059 | the packet's own storage if the bytes fit it, new storage otherwise, with room for exactly the bytes |
| `Injection.Source.MoveUp` | G2Packet.c:2945-2946 | moving a block within one piece of storage to a higher place leaves the block as it was before |
| `Injection.Source.MakeRoom` | G2Packet.c:2915-2953 | the old data is moved undamaged behind the room for the child, in every placement of the old data |
| `Injection.Source.InjectFr` | G2Packet.c:2865-2964 | for every payload and every placement the new payload is the encoded child followed by the old payload |
| `Injection.Forward` | G2Packet.c:2865-2964 | a compound packet in any placement, given the child in front and written out literally, decodes to the same tree with that child as its first, or fails to decode as before; it is refused exactly if it has become too long for a length field |
| `QueryKeys.Keys.Tick` | G2QueryKey.c:257-314 | rotates exactly when a slot's time has passed in either direction, renewing the next slot alone |
| `QueryKeys.RotationAt` | G2QueryKey.c:257-314 | any number of rotations go round and round the ring, and a slot is renewed by every eighth rotation after it was the current one and by no other |
| `QueryKeys.FoldBits` | G2QueryKey.c:326-329 | every bit of the folded hash is the parity of eight bits of it, one of every four |
| `QueryKeys.KeyIs` | G2QueryKey.c:316-348 | a key is the hash of the address with one of the 64 pairs of salts, which only its hash with the last pair chooses, with the slot in place of the three lowest bits |
| `QueryKeys.OtherIsRefused` | G2QueryKey.c:339-355 | with a hash that multiplies by eight the key of an address is known, and passes for no other address |
| `QueryKeys.KeyPassesIff` | G2QueryKey.c:339-355 | a key made for one address passes later for the same or another one exactly if the salts then in its slot give that address the same upper bits |
| `QueryKeys.KeyLasts` | G2QueryKey.c:339-355 | a key passes through any run of fewer than eight rotations |
| `QueryKeys.KeyDecays` | G2QueryKey.c:339-355 | after any number of rotations from the eighth on a key passes for an address exactly if the salts of the last renewal of its slot happen to give the same upper bits |
| `QueryKeys.TickAll` | G2QueryKey.c:257-314 | any run of ticks, rotating or not, amounts to the rotations of those that are far enough from the last one |
| `QueryKeys.MakeAndCheck` | G2QueryKey.c:339-355 | a key made for one address and checked after any run of ticks for the same or another one passes exactly if what its slot then holds gives the same upper bits, and for its own address if fewer than eight rotated |
| `QueryKeys.RotationsTakeTime` | G2QueryKey.c:257-314 | with a clock that does not go back, n rotations take at least n slot times |

## Left out

- Sockets, polling threads, daemon, configuration, web caches and dump files: input and output.
- Compression itself (zlib, zstd, the run-length encoding of tables): table bytes are kept decoded, what becomes of a
  compressed datagram or set is the parameter `inflate` of `Reception`, and `QhtPatch.QhTable.Patch` takes whether the
  encoded form is smaller as a parameter.
- What an access outside the bitmap does: for part 0 of several `ReasCache.Cache.Add` says that it happens, and the
  runs of `Reception` and `EndToEnd` hold no such datagram.
- Sending failures, acknowledgements and the choice of sequence numbers.
- Failing allocations: storage is always to be had, and the branches for the other case are not modelled.
- Red-black trees, hash lists and object pools: ordered sequences, sequences of buckets and sets of keys. In
  `ReasCache` the address and sequence number of a set are one key, and which of several oldest sets is evicted
  is left open.
- Comparator truncation: time differences are not cut to an `int`.
- Knots inside receive buffers: `Knots` and `Reassembly` keep each buffer's bytes and numbers in a sequence, so the
  knot's place at the end of its own buffer is captured only as the room it takes.
- Update in place of packets by the encoder, of table pointers by the updater, of the tree of tables by searches, and
  of the generator's global array: `Serializer.OutPacket`, `QhtTables.Tree` and `TypeTable` rows are values handed
  from call to call.
- Knots.InsertKeeps: of `end`, where a part straddles two buffers, only what the merge relies on is stated; the buffer
  may hold more whole parts than `end` says.
- Reception.HandleAll: the cache has room for all sets of the run and the watched set is not expired; what happens to
  a set that is evicted or expired, `ReasCache.Cache.Add` and `ReasCache.Cache.Timeout` say.
- DirtyRuns.PassCleansAll: about a pass without interruption; with markers at work `DirtyRuns.RunKeeps` says what
  holds.
- QhtUpdate.SearchAfterUpdate: the tables of the tree itself all have the default number of entries, as the source
  makes them, and all hashes are below it, as `QhtSearch.HashBelow` gives for that size. What a search of a leaf's
  encoded table finds is taken from the description of `bitfield_lookup`.
- Timers.CallsReturn: about a way on that a scheduler can take; waking the timer thread by its condition variable and
  fairness are left to the scheduler.
- TypeTable.Generate: the order that `qsort` leaves is a parameter, any order by first word; weights only choose among
  these, and the machine is little-endian.
- QueryKeys: hash function, random salts and the check of the salt values are parameters.
- AgedCache: hash function and the test for public addresses are parameters; saving and loading is left out.
- Registry.Init: the number of levels is a parameter; how it follows from the configured number of connections is left
  out.
- The `write_header` branch of preparation, which the source itself marks as broken.
- Hazard pointers, reference counts and memory barriers: reclamation is taken to be safe.
- The GUID cache, which has the skeleton of the known-hub cache; handshake, per-packet handlers, keyword extraction
  and URN parsing, which would only add easy members.
