# MARS verification

Machine-checked models of the state-changing parts of MARS: the NDN distance-vector router with its forwarding-table
synchroniser, prefix table and message codec, the NDNLP link service, and the multipath baselines it is compared with
(QUIC streams, acknowledgements, OLIA, equal-cost routes). `dafny verify dfyconfig.toml` checks everything.

Each strand proves what the code is for:

- **Routing** (`DvTable`, `DvRib`, `DvNetwork`, `DvChurn`). The router class is proved to replace one column of an
  abstract cost table per advertisement. On that table: from *any* state, after k exchange rounds every cost up to k is
  the length of a real walk and every distance up to k is exact; fifteen rounds lead every network to the same quiescent
  state; in every quiescent state distances are exact below 16, there are no other entries, and hop-by-hop forwarding
  arrives without loops; over every asynchronous run each finite cost belongs to a walk that never doubles back. All this
  holds after any history of link failures, repairs and restarts, once lost neighbours are declared dead, and convergence
  needs no rounds: advertisements may be made and received in any interleaving, lead to the one state that belongs to the
  links, and change nothing from then on. A router that handles an advertisement advertises in its turn exactly if its
  two best hops to some destination changed.
- **Forwarding table and prefixes** (`FibSync`, `FibUpdate`, `PrefixSync`). Replaying the commands sent to the forwarder
  always gives the table kept, which after an update is, per name and face, the least next-hop plus prefix cost over the
  routers in the routing table. Replicas of the prefix table hold the least announced cost of every name.
- **Messages** (`TlvNames`, `DvTlv`, `DvTlvCodec`). Encoders fill exactly the length they computed, parsers are proved
  against a functional parse, and messages are read back from their encodings.
- **Link service** (`LpReassembly`, `LpLink`). Reassembly in sixteen slots returns only packets that were sent, passes on
  every packet sent in one frame, and returns a packet that was cut up if its fragments arrive before sixteen further
  buffers are handed out.
- **Streams** (`StreamGaps`, `StreamSorter`, `StreamTransport`, `StreamEndToEnd`). For every write
  history, splitting, loss, repetition and reordering, the bytes read are a prefix of the bytes written, up to the first
  byte missing; and the end is reported behind the last byte written, with one exception that is stated exactly.
- **Acknowledgements** (`AckHistory`, `SentPackets`, `SentPacketBooks`, `SentPacketHandling`, `AckPath`, `PacketRing`). The
  receiver's intervals stand for the numbers received; the sender's scan finds exactly the packets covered; bytes in
  flight are the sum of the history and every packet is in exactly one place; an honest peer is never taken for a
  misbehaving one; a packet that asks for an acknowledgement is named by one, or one is queued or timed; the linked ring
  refines a sequence, also when a list is appended to itself.
- **Baselines** (`Ecmp`, `Olia`). The breadth-first search returns exactly the neighbours on shortest paths and forwarding
  by them is free of loops; the coupling terms of OLIA go to the right paths and add up to zero.

Where the code does not do what is wanted, the model keeps the code, shows an input and states when it does:

- Name components are written with a *natural number* as length but read with a *length number*. Messages are read back
  exactly when every component is shorter than 253 bytes (`TlvNames.NameRoundTrip`, `TlvNames.LongExample`).
- A stream frame that loses its tail keeps its end mark. The mark is right exactly when the last byte had not arrived
  before. A reader sees the end of the stream early if and only if some frame with the mark arrives when its last byte has
  arrived and another has not (`StreamEndToEnd.Connection.Deliver`, `StreamEndToEnd.Connection.Read`,
  `StreamEndToEnd.PrematureEnd`).
- A prefix announced at exactly the infinite cost is never published but is part of snapshots (`PrefixSync.SnapAgrees`,
  `PrefixSync.StrayOrigin`, `PrefixSync.StrayExample`).
- Prefix and next-hop cost are added in 64-bit words without a check. The cost installed is the least true sum if and only
  if every wrapping route is matched by one that truly costs no more; honest routers never cause a wrap
  (`FibSync.TrueLeast`, `FibSync.WrappedRoute`, `FibUpdate.HonestRoutes`).
- One hop is added to an advertised cost without a check. The highest number wraps to 0, and only that
  (`DvTable.OfferExact`).

Router names stand for their 64-bit hashes, which are taken to be injective. Time, congestion windows, flow-control limits
and random choices (the order in which a map is visited) are parameters or are left to be chosen arbitrarily. Packet
numbers, stream offsets and sequence numbers are unbounded unless a row says otherwise.

## Model

| member | source | states |
|---|---|---|
| `DvTable.ScanKeepsBest` | mars/dv/table/rib.go:206-220 | One step of the scan over a cost table keeps the two lexicographically least (cost, hop) pairs of the part seen, whatever the order. |
| `DvTable.BestUnique` | mars/dv/table/rib.go:200-231 | The cached quadruple is determined by the cost table, so the order of the map does not matter. |
| `DvTable.BestOfFinite` | mars/dv/table/rib.go:200-231 | Infinite costs never influence the cached quadruple. |
| `DvTable.ColumnIgnoresOrder` | mars/dv/dv/table_algo.go:38-58 | The offers derived from an advertisement do not depend on the order of its entries. |
| `DvTable.ReceiveCost` | mars/dv/dv/table_algo.go:31-61 | Handling an advertisement replaces exactly the column of that neighbour, cell by cell. |
| `DvRib.RibEntry.Refresh` | mars/dv/table/rib.go:200-231 | After the loop the cached hops are those of the cost table, and the result says whether they changed. |
| `DvRib.RibEntry.Set` | mars/dv/table/rib.go:189-197 | A cost that is new or differs is stored and the cache refreshed; otherwise the entry is left as it was. |
| `DvRib.Rib.Set` | mars/dv/table/rib.go:73-94 | Only the entry of the destination changes, to the old one with this cost; it is created if missing. The result is true exactly if it was created or its cached pair changed. |
| `DvRib.Rib.RemoveNextHop` | mars/dv/table/rib.go:120-132 | The column of the hop is gone from every entry; the result is true exactly if a cached pair changed. |
| `DvRib.Rib.DirtyResetNextHop` | mars/dv/table/rib.go:137-143 | Every cost of the hop is infinite, every entry is marked, no cache is touched. |
| `DvRib.Rib.Prune` | mars/dv/table/rib.go:148-163 | Marked entries are refreshed and exactly the unreachable ones removed; the result is true exactly if an entry went or a cached pair changed. |
| `DvRib.Rib.Advert` | mars/dv/table/rib.go:166-183 | The list holds exactly one entry per destination with the cached hop and both costs, and is as long as the table. |
| `DvRib.Router.constructor` | mars/dv/table/rib.go:42-48 | A new router knows itself at cost 0 and nothing else. |
| `DvTable.OfferExact` | mars/dv/dv/table_algo.go:40-49 | The cost a receiver derives is one more than what the sender pays without going back through it, where all costs from 16 on mean infinity; this fails exactly for the highest 64-bit number, which wraps to 0 unless the sender routes through the receiver. |
| `DvRib.Router.UpdateRib` | mars/dv/dv/table_algo.go:21-67 | The abstract table becomes the old one with the neighbour's column replaced; the table is clean. For an advertisement that offers each destination at one cost, the result is true exactly if the two best hops of some destination changed; for any other, it is also true if a pair moved and moved back. |
| `DvRib.Router.CheckDeadNeighbors` | mars/dv/dv/table_algo.go:70-92 | The columns of the dead neighbours are emptied; the result is true exactly if a cached pair used one of them, which is exactly if the two best hops of some destination changed. |
| `DvRib.ForgetAllCost` | mars/dv/dv/table_algo.go:70-92 | Exactly the costs through the dead neighbours become infinite; all others stay. |
| `DvRib.MovesShow` | mars/dv/dv/table_algo.go:38-65 | If no destination is offered at two costs, a pair that an entry of the advertisement moved is still another one when the advertisement has been handled. |
| `DvRib.CachedBest` | mars/dv/table/rib.go:200-231 | The cached pairs of a clean entry are the two best of its row in the abstract table. |
| `DvRib.RefilledIsReceive` | mars/dv/dv/table_algo.go:31-61 | Resetting a column, refilling it entry by entry and pruning has the same outcome as replacing the column at once. |
| `DvRib.SettledAdvert` | mars/dv/table/rib.go:166-183 | What the cached fields of a clean table advertise is what the abstract table determines. |
| `DvChurn.MakeAdvert` | mars/dv/table/rib.go:166-183 | The advertisement of a clean router lists what its abstract table determines. |
| `DvChurn.HandleAdvert` | mars/dv/dv/table_algo.go:21-67 | Handling such an advertisement changes the receiver's table exactly as one exchange of the network model does, and the receiver advertises in its turn exactly if the two best hops of some destination changed; so never if the advertisement tells it nothing new. |
| `DvNetwork.OfferReal` | mars/dv/dv/table_algo.go:40-49 | If an advertisement is made of real walks, so is every derived cost, and poison reverse keeps the walk from doubling back. |
| `DvNetwork.ShortestIsHeard` | mars/dv/dv/table_algo.go:43-49 | Poison reverse never hides a shortest path: a neighbour at distance m - 1 is heard at m. |
| `DvNetwork.AnyOrderIsRound` | mars/dv/dv/table_algo.go:21-67 | Receiving every neighbour's advertisement, in any order and with repetitions, is one exchange round. |
| `DvNetwork.RunSettles` | mars/dv/dv/table_algo.go:21-67 | Self-stabilisation: from any state, after k rounds every cost up to k is a real walk and every distance up to k below 16 is exact. |
| `DvNetwork.RoundTableSettles` | mars/dv/dv/table_algo.go:21-67 | A table that holds what a router hears from tables settled up to k is settled up to k + 1. |
| `DvNetwork.SettledTable` | mars/dv/table/rib.go:148-163 | Then a router has an entry exactly for the destinations nearer than 16, at their distance; farther and dead ones have none. |
| `DvNetwork.ForwardArrives` | mars/dv/table/rib.go:166-183 | Following the best next hops gets one step closer each time and arrives after exactly the distance, so there is no loop. |
| `DvNetwork.QuiescentIsSettled` | mars/dv/dv/table_algo.go:21-92 | In every quiescent state, whatever failed before, all costs are real and all distances exact. |
| `DvNetwork.RunsConverge` | mars/dv/dv/table_algo.go:21-67 | After fifteen rounds any two runs over the same links, from any two states, are in the same state, and stay there. |
| `DvNetwork.ConvergedIsQuiescent` | mars/dv/dv/table_algo.go:21-67 | That state is quiescent. |
| `DvNetwork.FixpointIsQuiescent` | mars/dv/dv/table_algo.go:21-67 | A state that a round leaves alone is quiescent. |
| `DvNetwork.StartupExact` | mars/dv/table/rib.go:42-48 | After k < 16 rounds from start-up a router has an entry exactly for the destinations within k hops, at their distance. |
| `DvNetwork.LinkLossRepaired` | mars/dv/dv/table_algo.go:70-92 | Emptying the column of a lost neighbour makes a table fit the remaining links, whatever it holds. |
| `DvNetwork.AsyncRunSound` | mars/dv/dv/table_algo.go:38-58 | Over every run in which advertisements are lost, delayed, repeated or reordered, each finite cost is the length of a walk through that neighbour that never immediately doubles back. |
| `DvChurn.StepOk` | mars/dv/dv/table_algo.go:21-92 | While links fail and come back and routers restart, meet and lose neighbours, every event keeps: finite costs come only through neighbours taken to be alive, and each column is what follows from an advertisement its sender did make. |
| `DvChurn.HistoryIsLocal` | mars/dv/dv/table_algo.go:70-92 | After any history of failures, once every lost neighbour has been declared dead, the tables fit the current links. |
| `DvChurn.HistoryAtRest` | mars/dv/dv/table_algo.go:21-92 | After any history of failures, if moreover no current advertisement would change a table, all costs are real and all distances exact for the current links. |
| `DvChurn.PhasesSettle` | mars/dv/dv/table_algo.go:21-67 | Convergence without rounds: after k phases, in each of which every router receives from each neighbour an advertisement made in that phase, in any interleaving and while tables change, every cost up to k is real and every distance up to k below 16 is exact, and it stays so. |
| `DvChurn.PhasesAgree` | mars/dv/dv/table_algo.go:21-67 | Two histories that end with the same links, whatever happened before and however advertisements are interleaved: after k phases in each, the tables hold the same costs up to k. |
| `DvChurn.PhasesConverge` | mars/dv/dv/table_algo.go:21-67 | After fifteen phases all such histories are in the same state. |
| `DvChurn.PhasesStop` | mars/dv/dv/table_algo.go:21-67 | From then on no advertisement that arrives changes a table, so handling it makes no router advertise. |
| `DvChurn.PhasesRest` | mars/dv/dv/table_algo.go:21-67 | One phase more and the state is at rest: no current advertisement would change a table. |
| `FibSync.CheapestIsLeast` | mars/dv/table/fib.go:80-107 | The cost merged for a face is the least usable one offered, in whatever order offers come. |
| `FibSync.MergeAllCost` | mars/dv/table/fib.go:73-107 | After merging, every face has the least cost offered for it and still remembers its previous cost. |
| `FibSync.DifferenceReplayed` | mars/dv/table/fib.go:109-146 | Replaying the commands of one update turns the old routes of the name into the new ones and touches no other name. |
| `FibSync.QuietRow` | mars/dv/table/fib.go:128-133 | If the cheapest offers are installed already, no command is sent. |
| `FibSync.Merge` | mars/dv/table/fib.go:73-107 | The merging loops compute the merged row. |
| `FibSync.Diff` | mars/dv/table/fib.go:109-146 | The two output loops keep the reachable entries and send exactly the difference. |
| `FibSync.Fib.UpdateH` | mars/dv/table/fib.go:68-157 | Replaying all commands still gives exactly the table; the row of the name is the merged one, other rows are untouched, the result says whether the name has a route. |
| `FibSync.Fib.RemoveUnmarked` | mars/dv/table/fib.go:169-177 | Exactly the unmarked names lose their routes. |
| `FibSync.Fib.UpdateFib` | mars/dv/dv/table_algo.go:140-147 | For every name and face the installed cost is the cheapest one wanted, whatever was installed before. |
| `FibSync.NextHops` | mars/dv/table/fib.go:22-40 | The next hops to a router are exactly its cached pairs with a live neighbour and a finite cost, on the face of that neighbour. |
| `FibSync.Collect` | mars/dv/dv/table_algo.go:105-138 | The offers collected for a name are those of all other routers for it, with costs added. |
| `FibSync.CheapestOffer` | mars/dv/dv/table_algo.go:105-138 | The cheapest offer is determined by which offers there are, not by the order of routers. |
| `FibSync.TrueLeast` | mars/dv/dv/table_algo.go:112-112 | The cost installed by adding 64-bit words is the least true sum if and only if every route whose sum wraps is matched by one that truly costs no more. |
| `FibSync.ModestMatched` | mars/dv/dv/table_algo.go:112-112 | No sum wraps if next hops cost less than 16 and names no more than the infinite prefix cost. |
| `FibSync.WrappedRoute` | mars/dv/dv/table_algo.go:112-112 | A prefix announced at the highest number, one hop away, and by nobody else, is installed at cost 0, while in truth it is of no use. |
| `FibSync.Synchronise` | mars/dv/dv/table_algo.go:95-148 | After a synchronisation the forwarder has, per name and face, the least sum of next-hop and prefix cost as 64-bit words over the given exit routers, and no other route; it is the least true sum if and only if every wrapping route is matched. |
| `FibUpdate.ExitRoutes` | mars/dv/dv/table_algo.go:117-138 | The exits built from the routing table, in any order, offer exactly the routes that the abstract table and the copies of announcements determine. |
| `FibUpdate.ListExits` | mars/dv/dv/table_algo.go:117-138 | One exit per router in the table, with its live best next hops, its group prefix and what it announces. |
| `FibUpdate.UpdateFib` | mars/dv/dv/table_algo.go:95-148 | For every name and face the forwarder holds the minimum, over the routers in the table, of next-hop cost plus prefix cost below infinity, whatever it had before; in 64-bit words always, by the true sum exactly if every wrapping route is matched, and so always when the copies come from honest routers. |
| `FibUpdate.HonestRoutes` | mars/dv/dv/table_algo.go:112-112 | No route to a prefix published by an honest router wraps. |
| `PrefixSync.ReplicaTable.Apply` | mars/dv/table/prefix_table.go:166-202 | A list is applied to the copy of its own router only; lists without a router are refused; the result says whether anything was applied. |
| `PrefixSync.ModestApply` | mars/dv/table/prefix_table.go:138-163 | Copies built from published operations and snapshots never hold a cost above the infinite one. |
| `PrefixSync.ComputeCost` | mars/dv/table/prefix_table.go:221-233 | The loop finds the least next-hop cost. |
| `PrefixSync.PrefixTable.Reset` | mars/dv/table/prefix_table.go:63-72 | All prefixes are gone, locally and in a replica, by one published operation. |
| `PrefixSync.PrefixTable.Announce` | mars/dv/table/prefix_table.go:74-111 | Replicas and local table stay in agreement with what is announced; an operation is published exactly when the least cost changes. |
| `PrefixSync.PrefixTable.Withdraw` | mars/dv/table/prefix_table.go:113-135 | Likewise for a withdrawal, also of a name or face that is not there. |
| `PrefixSync.PrefixTable.PublishEntry` | mars/dv/table/prefix_table.go:138-163 | A usable cost is published as an addition; any other as a removal that also drops the entry. |
| `PrefixSync.PrefixTable.Snap` | mars/dv/table/prefix_table.go:204-219 | The snapshot replaces everything by the costs in the table. |
| `PrefixSync.ReplicaMeaning` | mars/dv/table/prefix_table.go:74-202 | After every history a replica holds exactly the names with a usable announcement, each at its least announced cost. |
| `PrefixSync.SnapAgrees` | mars/dv/table/prefix_table.go:204-219 | A snapshot stands for the whole log if and only if no entry sits exactly at the infinite cost. |
| `PrefixSync.SnapAnywhere` | mars/dv/table/prefix_table.go:204-219 | Then any prefix of the log may be replaced by the snapshot at its end, for a replica in any state and any later operations. |
| `PrefixSync.StrayOrigin` | mars/dv/table/prefix_table.go:84-110 | An entry comes to sit at the infinite cost if and only if an absent name is announced at exactly that cost. |
| `PrefixSync.StrayExample` | mars/dv/table/prefix_table.go:84-110 | The concrete history: the log says nothing, the snapshot lists the name. |
| `StreamGaps.FillMissing` | baselines/mpquic/stream_frame_sorter.go:104-130 | Updating the gap list removes exactly the positions of the stored part from the missing ones. |
| `StreamGaps.FillOrdered` | baselines/mpquic/stream_frame_sorter.go:104-130 | The gaps stay sorted, disjoint and apart. |
| `StreamSorter.FrameSorter.AdjustGaps` | baselines/mpquic/stream_frame_sorter.go:104-130 | The four cases of the gap update all yield that gap list. |
| `StreamSorter.FrameSorter.Insert` | baselines/mpquic/stream_frame_sorter.go:60-143 | The part of a frame between its first and last open gap is stored and covered frames are dropped; too many gaps are reported exactly if the gaps left exceed the limit, and then the frame is not stored. |
| `StreamSorter.FrameSorter.Push` | baselines/mpquic/stream_frame_sorter.go:32-144 | After every accepted frame the live frames tile exactly the received bytes at or above the read position, gaps are the complement of the received bytes, and only new bytes are added. A frame is a duplicate exactly if all its bytes have arrived; of the two internal errors one never occurs and the other exactly at the very last position. |
| `StreamSorter.FrameSorter.Head` | baselines/mpquic/stream_frame_sorter.go:155-161 | There is data at the head exactly when the read position lies in no gap. |
| `StreamSorter.FrameSorter.Pop` | baselines/mpquic/stream_frame_sorter.go:146-153 | Popping advances the read position by the frame and keeps the tiling. |
| `StreamSorter.StoreConsistent` | baselines/mpquic/stream_frame_sorter.go:32-144 | Storing a stretch keeps tiling, complement and the unreachability of stale frames. |
| `StreamTransport.ReceiveStream.Read` | baselines/mpquic/stream.go:91-182 | What is read is the received bytes from the read offset on; reading stops only when full, at the first missing byte with nothing queued there, or at the end mark; it is blocked exactly if there was nothing to read and the end not reached. |
| `StreamTransport.ReceiveStream.AddStreamFrame` | baselines/mpquic/stream.go:292-307 | An empty last frame is queued as it is, a frame without new bytes changes nothing, and of any other exactly the stretch from its first to its last missing byte is stored; the reasons for a refusal are listed. |
| `StreamTransport.SendStream.Write` | baselines/mpquic/stream.go:184-231 | What was sent and what is pending make up what was written; a call that finds nothing pending appends its argument, and one that finds data left by a call that gave up drops them. |
| `StreamTransport.SendStream.GetDataForWriting` | baselines/mpquic/stream.go:244-263 | Data leave in order, none lost or repeated, and the offset advances by what was taken. |
| `StreamTransport.SendStream.PopNormalFrame` | baselines/mpquic/stream_framer.go:165-238 | A frame comes out exactly when there is room and something to send; it carries as many of the next written bytes as there is room for, at their offset, and the end mark exactly when the stream is closed and nothing is left. |
| `StreamTransport.SendStream.PopFramesForRetransmission` | baselines/mpquic/stream_framer.go:129-163 | The frames sent again, with the queue left, are a re-splitting of the queue; they fill the packet as far as headers fit, and only the last may be cut, which then fills it. |
| `StreamTransport.MaybeSplitOffFrame` | baselines/mpquic/stream_framer.go:241-258 | A frame is cut in two adjacent parts; the second keeps the end mark. |
| `StreamEndToEnd.Connection.Write` | baselines/mpquic/stream.go:184-231 | The bytes written are all arguments in a row, if and only if no call dropped what an earlier one had left. |
| `StreamEndToEnd.Connection.Send` | baselines/mpquic/stream_framer.go:165-238 | Every frame emitted is the next slice of what was written, which stays what it is. |
| `StreamEndToEnd.Connection.Requeue` | baselines/mpquic/stream_framer.go:32-34 | A frame taken to be lost waits to be sent again; nothing else changes. |
| `StreamEndToEnd.Connection.Resend` | baselines/mpquic/stream_framer.go:129-163 | So is every frame sent again: what is sent and what is left in the queue are a re-splitting of the queue within the packet size. |
| `StreamEndToEnd.Connection.Deliver` | baselines/mpquic/stream.go:292-307 | Any emitted frame may arrive, in any order and repeatedly: the receiver holds exactly the bytes of the delivered frames; reading is bound to end too early from then on exactly if the frame was overtaken (it has the end mark, its last byte had arrived, another had not), namely behind its last missing byte. |
| `StreamEndToEnd.Connection.Read` | baselines/mpquic/stream.go:91-182 | For every write history, the bytes read so far are a prefix of the bytes written and extend to the first byte that has not arrived; when the end is reported, they are all the bytes written if and only if no delivered frame was overtaken. The end is reported exactly when it is reached: when all bytes are read and a frame with the end mark, be it an empty one, has arrived, or at the place where an overtaken one put it. |
| `StreamEndToEnd.LastMark` | baselines/mpquic/stream_frame_sorter.go:96-102 | A cut frame keeps its end mark; the mark is in the right place if and only if the last byte had not arrived before. |
| `StreamEndToEnd.EndsStayRight` | baselines/mpquic/stream_frame_sorter.go:96-102 | Accepting a frame keeps every end mark right if and only if the frame was not overtaken. |
| `StreamEndToEnd.ReadOn` | baselines/mpquic/stream.go:91-182 | Reading goes on to the end of the first frame that carries the mark and stops there, right or wrong. |
| `StreamEndToEnd.PrematureEnd` | baselines/mpquic/stream.go:91-182 | A whole run: four bytes are written and sent, taken to be lost and sent again in two parts, of which the second arrives before the original frame; reading ends after three bytes. |
| `AckHistory.ReceivedPacketHistory.ReceivedPacket` | baselines/mpquic/ackhandler/received_packet_history.go:28-75 | The number is added to the set that the intervals stand for; they stay sorted, disjoint and non-adjacent; too many ranges are refused unchanged. |
| `AckHistory.ReceivedPacketHistory.DeleteUpTo` | baselines/mpquic/ackhandler/received_packet_history.go:78-93 | Exactly the numbers above the limit remain. |
| `AckHistory.ReceivedPacketHistory.GetAckRanges` | baselines/mpquic/ackhandler/received_packet_history.go:96-108 | All ranges, the highest first. |
| `AckHistory.ReceivedPacketHistory.GetHighestAckRange` | baselines/mpquic/ackhandler/received_packet_history.go:110-118 | The longest run of received numbers that ends with the largest one, or zeros if there is none. |
| `AckHistory.ReceivedPacketHandler.ReceivedPacket` | baselines/mpquic/ackhandler/received_packet_handler.go:46-68 | Exactly the numbers above the lower limit enter the history, whose top is the largest number observed; too many ranges are reported exactly for a number above the limit when the list is full, and then the history is unchanged. A packet above the limit is acknowledged at once for exactly the reasons of the next row, and one that asks leaves an acknowledgement queued or the alarm set. |
| `AckHistory.ReceivedPacketHandler.MaybeQueueAck` | baselines/mpquic/ackhandler/received_packet_handler.go:77-123 | An acknowledgement is due at once exactly for the first packet, the twentieth of an old version, a late packet, one behind a new gap, or the second that asks for one; otherwise a packet that asks leaves an alarm set, and one already set is kept. |
| `AckHistory.ReceivedPacketHandler.SetLowerLimit` | baselines/mpquic/ackhandler/received_packet_handler.go:72-75 | Exactly the numbers up to the limit are forgotten; the largest one observed stays on top of the history if and only if the limit is below it. |
| `AckHistory.ReceivedPacketHandler.GetAckFrame` | baselines/mpquic/ackhandler/received_packet_handler.go:125-148 | The history is never empty when a frame is due; the frame is well shaped and acknowledges exactly the numbers in the history; counters and alarm are reset only then. |
| `AckHistory.ReportsExactly` | baselines/mpquic/internal/wire/ack_frame.go:472-488 | A frame made from the intervals acknowledges a number if and only if it is in one of them. |
| `AckHistory.ReportsShape` | baselines/mpquic/internal/wire/ack_frame.go:376-412 | Such a frame passes the validity rules for acknowledgement ranges. |
| `SentPackets.DetermineNewlyAckedPackets` | baselines/mpquic/ackhandler/sent_packet_handler.go:267-341 | For every frame only acknowledged packets are returned; for a well-shaped one exactly the packets in flight that it covers. The internal error is reported exactly if a packet within the frame lies above all its ranges, which is never so for a well-shaped one. |
| `SentPackets.SelectRest` | baselines/mpquic/ackhandler/sent_packet_handler.go:212-217 | Taking out the packets found leaves exactly the others, in order. |
| `SentPackets.StripPlaces` | baselines/mpquic/ackhandler/retransmittable.go:6-26 | The frames kept are exactly those of the ten kinds other than acknowledgement and stop-waiting, each once and in order. |
| `SentPackets.HasRetransmittableFrames` | baselines/mpquic/ackhandler/retransmittable.go:28-36 | A packet asks for an acknowledgement exactly if it has a frame of these kinds. |
| `SentPackets.AsksIsTracked` | baselines/mpquic/ackhandler/retransmittable.go:6-36 | The sender tracks exactly the packets that ask for an acknowledgement. |
| `SentPacketBooks.OnePlace` | baselines/mpquic/ackhandler/sent_packet_handler.go:130-178 | An accepted packet that was not queued as a copy is in exactly one of: in flight, acknowledged, queued, dequeued. |
| `SentPacketHandling.StopWaitingManager.GetStopWaitingFrame` | baselines/mpquic/ackhandler/stop_waiting_manager.go:16-37 | A frame never names zero or a number beyond those recorded; a number is announced once unless forced, and forcing repeats the last frame. |
| `SentPacketHandling.SkipOne` | baselines/mpquic/ackhandler/sent_packet_handler.go:139-145 | Keeping the latest ten after every skipped number is keeping the latest ten of all. |
| `SentPacketHandling.PastIsLeast` | baselines/mpquic/ackhandler/stop_waiting_manager.go:39-49 | Queueing packets moves the least unacknowledged number to the least one above all of them, never back. |
| `SentPacketHandling.SentPacketHandler.SentPacket` | baselines/mpquic/ackhandler/sent_packet_handler.go:130-178 | Numbers must rise and at most 5000 packets are tracked; skipped numbers are recorded; exactly a packet that asks for an acknowledgement enters the history and the bytes in flight. |
| `SentPacketHandling.SentPacketHandler.ReceivedAck` | baselines/mpquic/ackhandler/sent_packet_handler.go:180-226 | Each error has its exact cause; otherwise exactly the covered packets are acknowledged and then exactly the late ones queued, the skipped numbers kept are those above the acknowledged prefix, and the loss time is the first deadline left; bytes in flight stay the sum of the history. The least unacknowledged number becomes one above the largest acknowledged one unless it was higher already; the counts of probes and timeouts start again exactly if a packet was acknowledged. |
| `SentPacketHandling.SentPacketHandler.ReceivedClosePath` | baselines/mpquic/ackhandler/sent_packet_handler.go:228-265 | Likewise, with all remaining packets up to the largest acknowledged one queued; the least unacknowledged number passes exactly the packets queued. |
| `SentPacketHandling.SentPacketHandler.DetectLostPackets` | baselines/mpquic/ackhandler/sent_packet_handler.go:387-419 | Exactly the packets sent too long ago are queued, in order, and the loss time is the first deadline left; the least unacknowledged number passes exactly the packets queued. |
| `SentPackets.LateMeaning` | baselines/mpquic/ackhandler/sent_packet_handler.go:387-419 | Late are exactly the packets up to the largest acknowledged one that were sent longer ago than the delay. |
| `SentPackets.UpToMeaning` | baselines/mpquic/ackhandler/sent_packet_handler.go:421-441 | When a path is closed, those up to the largest acknowledged one. |
| `SentPacketHandling.FirstDeadlineMeaning` | baselines/mpquic/ackhandler/sent_packet_handler.go:387-419 | The loss time is when the first packet up to the largest acknowledged one that is not late yet will be; there is none if all of them are. |
| `SentPacketHandling.SentPacketHandler.SetInflightAsLost` | baselines/mpquic/ackhandler/sent_packet_handler.go:421-441 | Exactly the packets up to the largest acknowledged one are queued. |
| `SentPacketHandling.SentPacketHandler.OnPacketAcked` | baselines/mpquic/ackhandler/sent_packet_handler.go:481-486 | The packet leaves the history and its bytes are there to be subtracted. |
| `SentPacketHandling.SentPacketHandler.QueuePacketForRetransmission` | baselines/mpquic/ackhandler/sent_packet_handler.go:562-568 | Likewise for a packet that is queued again; the stop-waiting number passes it. |
| `SentPacketHandling.SentPacketHandler.OnAlarm` | baselines/mpquic/ackhandler/sent_packet_handler.go:443-475 | While a packet is outstanding: with a loss time set exactly the late packets are queued, otherwise exactly the newest one for the first two probes, then exactly the oldest two, or all of them on a path that may have failed. Only a probe or a timeout is counted, and the least unacknowledged number passes exactly the packets queued. |
| `SentPacketHandling.SentPacketHandler.RetransmitOldestTwoPackets` | baselines/mpquic/ackhandler/sent_packet_handler.go:544-548 | The oldest two packets, or the fewer there are, move to the queue in order. |
| `SentPacketHandling.SentPacketHandler.RetransmitAllPackets` | baselines/mpquic/ackhandler/sent_packet_handler.go:531-536 | All packets move to the queue in order and the loop ends. |
| `SentPacketHandling.SentPacketHandler.DequeuePacketForRetransmission` | baselines/mpquic/ackhandler/sent_packet_handler.go:488-500 | The packet that waited longest is taken. |
| `SentPacketHandling.SentPacketHandler.DuplicatePacket` | baselines/mpquic/ackhandler/sent_packet_handler.go:570-572 | A copy is queued outside the accounting. |
| `SentPacketHandling.SentPacketHandler.SkippedPacketsAcked` | baselines/mpquic/ackhandler/sent_packet_handler.go:597-604 | True exactly when a tracked skipped number is acknowledged. |
| `SentPacketHandling.SentPacketHandler.GarbageCollectSkippedPackets` | baselines/mpquic/ackhandler/sent_packet_handler.go:615-624 | Exactly the skipped numbers above the largest in-order acknowledged one are kept. |
| `SentPacketHandling.SentPacketHandler.GetLeastUnacked` | baselines/mpquic/ackhandler/sent_packet_handler.go:502-504 | The number of the oldest packet in flight, or one above the largest acknowledged; no packet in flight has a lower number. |
| `SentPacketHandling.SentPacketHandler.GetStopWaitingFrame` | baselines/mpquic/ackhandler/sent_packet_handler.go:506-508 | A number not announced before is announced, otherwise only a forced frame repeats the last; the number named is at most one above the last packet sent. |
| `AckPath.Path.Send` | baselines/mpquic/ackhandler/sent_packet_handler.go:130-178 | Sending, with a stop-waiting frame if there is a new number to announce, records the packet and keeps the path invariant. |
| `AckPath.Path.Deliver` | baselines/mpquic/path.go:198-256 | Any packet ever sent may arrive again; its stop-waiting frame sets the limit below the number it names and never empties the receiver's history. A packet that asks for an acknowledgement and is not below the limit leaves one queued or the alarm set. |
| `AckPath.Path.Acknowledge` | baselines/mpquic/ackhandler/received_packet_handler.go:125-148 | An acknowledgement that is due is sent and names only received packets. Unless the alarm is set for later, every packet in the history that asked for an acknowledgement has been named in one. |
| `AckPath.Path.DeliverAck` | baselines/mpquic/ackhandler/sent_packet_handler.go:180-226 | However packets and acknowledgements are lost, repeated or reordered, an acknowledgement is accepted or out of order, never one of an unsent or skipped packet and never an internal error; what is counted as acknowledged was received. |
| `AckPath.Path.Alarm` | baselines/mpquic/ackhandler/sent_packet_handler.go:443-475 | A timeout acknowledges nothing. |
| `PacketRing.PacketElement.Next` | baselines/mpquic/ackhandler/packet_linkedlist.go:29-34 | The next element of the sequence, or nothing at its end. |
| `PacketRing.PacketElement.Prev` | baselines/mpquic/ackhandler/packet_linkedlist.go:37-42 | The previous element of the sequence, or nothing at its start. |
| `PacketRing.PacketList.Init` | baselines/mpquic/ackhandler/packet_linkedlist.go:52-57 | The list is an empty ring. |
| `PacketRing.PacketList.Insert` | baselines/mpquic/ackhandler/packet_linkedlist.go:90-99 | The pointers form the ring of the sequence with the element inserted. |
| `PacketRing.PacketList.TakeOut` | baselines/mpquic/ackhandler/packet_linkedlist.go:107-115 | The pointers form the ring of the sequence without the element, which is detached. |
| `PacketRing.PacketList.Front` | baselines/mpquic/ackhandler/packet_linkedlist.go:67-72 | The first element or nothing. |
| `PacketRing.PacketList.Back` | baselines/mpquic/ackhandler/packet_linkedlist.go:75-80 | The last element or nothing. |
| `PacketRing.PacketList.Remove` | baselines/mpquic/ackhandler/packet_linkedlist.go:119-126 | The element is removed exactly if it belongs to this list. |
| `PacketRing.PacketList.PushFront` | baselines/mpquic/ackhandler/packet_linkedlist.go:129-132 | A new element comes first. |
| `PacketRing.PacketList.PushBack` | baselines/mpquic/ackhandler/packet_linkedlist.go:135-138 | A new element comes last. |
| `PacketRing.PacketList.InsertBefore` | baselines/mpquic/ackhandler/packet_linkedlist.go:142-148 | A new element comes right before the mark, or nothing happens if the mark is elsewhere. |
| `PacketRing.PacketList.InsertAfter` | baselines/mpquic/ackhandler/packet_linkedlist.go:152-158 | A new element comes right after the mark, or nothing happens if the mark is elsewhere. |
| `PacketRing.PacketList.MoveToFront` | baselines/mpquic/ackhandler/packet_linkedlist.go:162-168 | The element moves to the front, the others keep their order. |
| `PacketRing.PacketList.MoveToBack` | baselines/mpquic/ackhandler/packet_linkedlist.go:172-178 | The element moves to the back, the others keep their order. |
| `PacketRing.PacketList.MoveBefore` | baselines/mpquic/ackhandler/packet_linkedlist.go:182-187 | The element moves right before the mark, the others keep their order. |
| `PacketRing.PacketList.MoveAfter` | baselines/mpquic/ackhandler/packet_linkedlist.go:191-196 | The element moves right after the mark, the others keep their order. |
| `PacketRing.PacketList.PushBackList` | baselines/mpquic/ackhandler/packet_linkedlist.go:200-205 | Copies of the other list's values follow, once each and in order, also when it is the same list; the loop ends. |
| `PacketRing.PacketList.PushFrontList` | baselines/mpquic/ackhandler/packet_linkedlist.go:209-214 | The same at the front, in the same order. |
| `PacketRing.Track` | baselines/mpquic/ackhandler/sent_packet_handler.go:162-162 | A packet that is sent goes to the end of the history. |
| `PacketRing.FindCovered` | baselines/mpquic/ackhandler/sent_packet_handler.go:267-341 | Walking the ring from element to element finds the elements of exactly the packets that a well-shaped frame covers, and never fails on one. |
| `PacketRing.Release` | baselines/mpquic/ackhandler/sent_packet_handler.go:481-486 | Removing the element of a packet from the ring removes exactly that packet from the history. |
| `PacketRing.ReleaseAll` | baselines/mpquic/ackhandler/sent_packet_handler.go:212-217 | Removing several elements one after the other removes exactly their packets. |
| `PacketRing.Acknowledge` | baselines/mpquic/ackhandler/sent_packet_handler.go:180-226 | Handling a well-shaped frame on the ring leaves exactly the packets that it does not cover, in order. |
| `LpLink.PartsJoin` | mars/fw/face/ndnlp-link-service.go:209-234 | The pieces of a packet make it up, and none is empty or too long. |
| `LpLink.PartsCount` | mars/fw/face/ndnlp-link-service.go:210-210 | The number of pieces is the rounded-up quotient. |
| `LpLink.LinkSender.SendPacket` | mars/fw/face/ndnlp-link-service.go:200-239 | A packet becomes one frame, or consecutive numbered pieces of it, or is dropped if splitting is off. |
| `LpReassembly.Reassembler.Reassemble` | mars/fw/face/ndnlp-link-service.go:384-440 | The buffer search, allocation, validation, storing and release act on the sixteen slots as specified; a fragment that does not fit the buffer of its packet is dropped. |
| `LpReassembly.StepTracks` | mars/fw/face/ndnlp-link-service.go:384-440 | Whatever fragments arrive, each buffer belongs to one packet sent and holds only its pieces, and a packet returned is one that was sent. |
| `LpReassembly.ArrivesWhole` | mars/fw/face/ndnlp-link-service.go:384-440 | A packet whose fragments all arrive before sixteen further buffers are handed out is returned as it was sent. |
| `LpReassembly.SixteenthEvicts` | mars/fw/face/ndnlp-link-service.go:403-409 | The sixteenth further buffer takes the slot over, so the bound is exact. |
| `LpLink.HandleIncomingFrame` | mars/fw/face/ndnlp-link-service.go:305-339 | A frame that says nothing of pieces, or is numbered as the only one of one, is passed on; an empty one, or a piece when pieces cannot be put together, is dropped; any other piece goes to the buffers and yields the packet that it completes. |
| `LpLink.Link.Send` | mars/fw/face/ndnlp-link-service.go:200-239 | A packet is sent whole, dropped if splitting is off, or cut up: then a number never used before stands for its pieces, which the frames carry and which make up the packet. |
| `LpLink.Link.Receive` | mars/fw/face/ndnlp-link-service.go:305-339 | However frames are lost, repeated and interleaved, what comes out is a packet that was sent; a packet sent in one frame does come out when it arrives. |
| `LpLink.Link.ReceiveAll` | mars/fw/face/ndnlp-link-service.go:305-440 | Every packet sent in one of the frames comes out; a packet that was cut up comes out whole if all its frames arrive, the first of them makes the receiver hand out a buffer, and fewer than sixteen others are handed out; nothing else comes out. |
| `Ecmp.SearchedDistance` | baselines/mptcp/mininet-mptcp-run.py:362-378 | The distances found are the distances in the graph searched. |
| `Ecmp.Expand` | baselines/mptcp/mininet-mptcp-run.py:371-378 | Following a node's edges finds exactly its neighbours and adds it as parent where it is one step nearer. |
| `Ecmp.BreadthFirst` | baselines/mptcp/mininet-mptcp-run.py:362-378 | The search ends with exact distances and with the nearer neighbours as parents. |
| `Ecmp.Backtrack` | baselines/mptcp/mininet-mptcp-run.py:385-393 | The recursion ends and collects exactly the nodes next to the source on a shortest way. |
| `Ecmp.CalculateEcmpRoutes` | baselines/mptcp/mininet-mptcp-run.py:357-394 | The result is exactly the neighbours of the source on some shortest path to the destination. |
| `Ecmp.CalculateTargetNextHops` | baselines/mptcp/mininet-mptcp-run.py:501-514 | The attachment rule on top of it. |
| `Ecmp.Nearer` | baselines/mptcp/mininet-mptcp-run.py:501-514 | Every step of forwarding leaves fewer steps. |
| `Ecmp.LoopFree` | baselines/mptcp/mininet-mptcp-run.py:501-514 | Whatever next hops are chosen, no node is passed twice. |
| `Ecmp.ArrivesAtOwner` | baselines/mptcp/mininet-mptcp-run.py:501-514 | A packet can go on until it is at the owner, and gets there within distance plus one steps. |
| `Olia.GetMaxCwnd` | baselines/mpquic/congestion/olia_sender.go:124-131 | The largest window, attained by a path. |
| `Olia.FindBest` | baselines/mpquic/congestion/olia_sender.go:165-172 | If nothing overflows and round trips are positive, no path has more bytes over squared round trip than the one chosen. |
| `Olia.BestPaths` | baselines/mpquic/congestion/olia_sender.go:183-183 | Then a path counts as best exactly when it is no worse than any other. |
| `Olia.KindsMeant` | baselines/mpquic/congestion/olia_sender.go:176-187 | The kinds computed are the intended ones: largest window, and best without it. |
| `Olia.CountKinds` | baselines/mpquic/congestion/olia_sender.go:176-187 | The byte-sized counters hold the numbers of paths of each kind, modulo 256. |
| `Olia.CountsFit` | baselines/mpquic/congestion/olia_sender.go:160-187 | With path numbers of one byte no counter that is used ever wraps. |
| `Olia.SumIsZero` | baselines/mpquic/congestion/olia_sender.go:190-210 | With at least one path of each kind the terms add up to zero. |
| `Olia.GetEpsilon` | baselines/mpquic/congestion/olia_sender.go:150-211 | Each path gets -1/(n m), 1/(n b) or 0, where the m paths that lose are those with the largest window and, unless products overflow, the b paths that gain are exactly the others that are no worse than any; all terms are zero if there are none; the exact sum over all paths is zero for all windows, round trips and byte counts. |
| `TlvNames.NumRoundTrip` | mars/std/encoding/primitives.go:14-96 | A type or length number is read back from its encoding. |
| `TlvNames.NatRoundTrip` | mars/std/encoding/primitives.go:98-126 | A natural number is read back from its encoding. |
| `TlvNames.NameRoundTrip` | mars/std/encoding/component.go:98-108 | A name is read back from its encoding if and only if every component is shorter than 253 bytes. |
| `TlvNames.LongExample` | mars/std/encoding/component.go:103-108 | A component of 253 zeros is read as an empty one followed by others. |
| `DvTlv.AdvertisementThrough` | mars/dv/tlv/zz_generated.go:285-361 | Parsing an encoded advertisement gives the advertisement with every name as it is read back. |
| `DvTlv.AdvertisementRoundTrip` | mars/dv/tlv/zz_generated.go:189-361 | An advertisement is read back if and only if no name in it has a component of 253 bytes or more. |
| `DvTlv.AdvEntryBytes` | mars/dv/tlv/zz_generated.go:424-456 | The bytes of an entry: which type carries the destination, the next hop, the cost and the other cost, with the high byte of a number first. |
| `DvTlv.PrefixOpListThrough` | mars/dv/tlv/zz_generated.go:959-1080 | The same for prefix operation lists. |
| `DvTlv.PrefixOpListRoundTrip` | mars/dv/tlv/zz_generated.go:760-1080 | A prefix operation list is read back under exactly the same condition. |
| `DvTlv.PrefixOpListBytes` | mars/dv/tlv/zz_generated.go:812-957 | The bytes of a list with an exit router, a reset mark, an addition and a removal. |
| `DvTlv.UnknownInDestination` | mars/dv/tlv/zz_generated.go:659-722 | A field of an unknown type is skipped wherever it stands in a destination, unless its type is below 32 or odd and such types are not to be ignored: then the message is refused. |
| `DvTlv.UnknownInEntry` | mars/dv/tlv/zz_generated.go:468-586 | The same in an advertised entry. |
| `DvTlv.UnknownInAdvertisement` | mars/dv/tlv/zz_generated.go:285-361 | The same in an advertisement. |
| `DvTlv.UnknownInAdd` | mars/dv/tlv/zz_generated.go:1160-1246 | The same in an added prefix. |
| `DvTlv.UnknownInList` | mars/dv/tlv/zz_generated.go:959-1080 | The same in a list of prefix operations. |
| `DvTlv.CutAdvertisement` | mars/dv/tlv/zz_generated.go:285-361 | An advertisement that ends inside an entry is refused. |
| `DvTlvCodec.PutNum` | mars/std/encoding/primitives.go:27-45 | The bytes of the number are written behind what is there. |
| `DvTlvCodec.PutComponent` | mars/std/encoding/component.go:103-108 | The bytes of the component are written behind what is there. |
| `DvTlvCodec.PutDestination` | mars/dv/tlv/zz_generated.go:635-647 | The bytes of the destination are written behind what is there. |
| `DvTlvCodec.PutAdvEntry` | mars/dv/tlv/zz_generated.go:424-456 | The bytes of the entry are written behind what is there. |
| `DvTlvCodec.AdvertisementWire` | mars/dv/tlv/zz_generated.go:189-283 | The length computed beforehand is exactly the number of bytes written. |
| `DvTlvCodec.PrefixOpListWire` | mars/dv/tlv/zz_generated.go:760-957 | Likewise for prefix operation lists. |
| `DvTlvCodec.ReadTLNum` | mars/std/encoding/primitives.go:68-96 | The loop reads a number or finds the input too short. |
| `DvTlvCodec.ReadNatural` | mars/dv/tlv/zz_generated.go:517-533 | The loop reads a natural number into a 64-bit word. |
| `DvTlvCodec.ReadComponents` | mars/std/encoding/name_pattern.go:116-129 | The loop reads components until the end or fails. |
| `DvTlvCodec.ReadDestination` | mars/dv/tlv/zz_generated.go:659-722 | The parser loop computes the specified parse. |
| `DvTlvCodec.ReadAdvEntry` | mars/dv/tlv/zz_generated.go:468-586 | The parser loop computes the specified parse, with both costs required. |
| `DvTlvCodec.ReadAdvertisement` | mars/dv/tlv/zz_generated.go:285-361 | The parser loop computes the specified parse. |
| `DvTlvCodec.ReadPrefixOpAdd` | mars/dv/tlv/zz_generated.go:1160-1246 | The parser loop computes the specified parse, with the cost required. |
| `DvTlvCodec.ReadPrefixOpList` | mars/dv/tlv/zz_generated.go:959-1080 | The parser loop computes the specified parse. |

## Left out

- StreamSorter.FrameSorter.Push: the invariant is not claimed after a too-many-gaps or no-end-gap error, which leaves the gaps changed and the frame unstored; the connection is closed then.
- StreamEndToEnd.Connection.Read: an unconditional claim about the end of the stream is false; the condition is stated instead.
- StreamTransport.ReceiveStream.AddStreamFrame: the invariant is not claimed after an empty frame that starts where queued data starts and takes its place; `StreamEndToEnd.Connection.Deliver` proves that no sender emits one.
- AckHistory.ReceivedPacketHandler.GetAckFrame: the delay time in the frame and the close-path frame are not modelled.
- SentPacketHandling.SentPacketHandler.ReceivedAck: RTT estimation, congestion callbacks, packet statistics and the computation of the alarm time are not modelled; the delay after which a packet is late is a parameter.
- SentPacketHandling.SentPacketHandler.OnPacketAcked: the history is a sequence in the handler; `PacketRing.Acknowledge` proves that scanning the ring and removing elements do the same to its packets.
- PacketRing.PacketList.Init: elements of a list that is cleared keep naming it as their list; methods that take an element require that one naming the list is in it, which holds in the repository because only new lists are initialised.
- PacketRing.PacketList.MoveBefore: the element is taken out before the position of the mark is read, as the Go compiler does.
- LpLink.LinkSender.SendPacket: the size left in a frame is a positive parameter; the header sizes that lead to it, with PIT token, congestion mark and Nack, are not modelled.
- LpReassembly.Reassembler.Reassemble: any number of fragments can be allocated.
- FibSync.Fib.UpdateH: commands are taken to be executed once and in order; retries are not modelled.
- PrefixSync.ReplicaTable.Apply: operates on parsed lists; `DvTlv` covers parsing.
- Olia.FindBest: the claim about the best path is for measurements whose products fit a signed 64-bit word.
- DvTlvCodec.ReadAdvertisement: parse errors are not told apart; lengths of 2^63 and more, multi-segment wires and nil entries are not modelled.
- Ecmp.CalculateEcmpRoutes: the result is a set; the order of the list returned is arbitrary in the source.
- Timers of neighbour liveness, advertisement fetching and state vectors (`mars/dv/dv/advert_sync.go`): network I/O around the table; in `DvChurn` neighbours are met and lost at any time, and only convergence asks for advertisements of one sender to be received in order.
- Cubic, PRR, hybrid slow start, RTT smoothing and the OLIA window update: floating-point and timing formulas with little structure across functions.
- Packet packing and unpacking, TLS, key exchange, listeners, transports and sockets: I/O and code that is not part of this model.
- Forwarding strategies, management modules, repository and command-line tools: dispatch around other tables.
- The remaining frame kinds of the stream framer (blocked, address, paths and close-path frames): simple queues.
- Concurrency: every handler runs under its lock and is one step here.
