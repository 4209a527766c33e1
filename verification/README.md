# Verified model of the Eigenbus host library

Eigenbus connects robot modules to a host over serial links that form a strict tree. This project models
the host library and proves what its data structures and protocols keep. The model follows the source's
form: what updates fields in place is a class with those fields, what fills a buffer works on an array,
loops stay loops; each such method is proved to do what a function on plain data says, and the theorems are
about these functions, for every input, every device and every run.

**Topology** (`Topology*.dfy`). Nodes linked through parent fields and child maps, an address map and a
by-depth index, driven by added, removed and downstream updates. The recursive recalculation of depths
terminates on every graph, loops included, visits every descendant once, and restores depths and index
completely. Where each module hangs, and at which port, is what following that module alone through the
history gives (`TopologyPlaces`). The graph stays one tree exactly as long as no report names the reporter or
one of its ancestors.

**Packets** (`PacketFilter`, `PacketTheorems`, `ServiceCycle`, `PacketLaws`, `PacketClock`, `PacketTracker`).
The retransmission queue as a state machine over an arbitrary clock, for the program reads the system's, which can
be set back. Whatever the clock does, every command is accounted for exactly once, an answered one is never
sent again, and none is resent too often; `PacketLaws` says from the outside which packets answer a command,
what is written for it, and that every count has its cause. For which clocks the queue is sorted by time, and for which the early
stop of the timeout loop misses no expired filter, `PacketClock` says exactly. A filter with no packet text
that times out disappears without being counted; a ghost counter keeps the books.

**Checksums and framing** (`CrcTables`, `Checksums`, `ReflectedChecksums`, `CrcDetection`, `Hex`,
`CheckValues`, `LineFraming`, `LineReads`, `LineSplitter`, `BootloaderTransport`, `CyFrames`, `CyReplies`).
Every checksum loop equals bit-serial division and gives the published check value, a change of one byte is always detected, and frames survive the text protocol in any
cut of the byte stream. For streams with longer lines the cut does matter, and `LineReads` says exactly when
it makes the receiver write past its buffer.

**Bootload sessions** (`Cy*.dfy`). The device is an arbitrary function from everything that has happened on
the connection to a reply; the file is its text. `CyHost` defines a session on values, `CySession` is the
host that keeps it in global variables. `CyLog` reads the frames on the wire without looking at the host,
as a device would, and shows what a successful session has done: every row of the file, whole, in order,
checked. `CyWhole` says exactly when a session ends in undefined behaviour, `CyCooperation` for which files
there is a device against which they are programmed successfully and for which one that reports only what it
was given, `CySound` that the checksums of a file's rows are what a device that holds the data reports, and
`CyCache` compares the host with one that has no flash-size table.

**Supporting structures** (`VectorMap`, `Debounce`, `Parameters`). The sorted vector with its map, the
debouncing of downstream addresses and the completeness of parameter sets, each against a definition over
its whole history.

Where the code and its comments differ, the model follows the code:

- eigen_topology_tracker.h:46 calls `max_depth` the depth of the deepest node; the code returns the number of
  levels of the index as a byte, normally one more. MaxDepthIff says exactly when it is that: not when an
  empty level has stayed at the end (EmptyLevelStays) and not with 256 levels (FullChain).
- `CyBtldr_TryParseParketStatus` returns 0 for a sound packet, not 1.
- A parameter set counts as not yet announced when the expected number is 0xFF, not when it is 0.
- README.md:5 promises a strict tree; the tracker does not enforce it. HistoryIsTreeIff says exactly which
  histories keep it, SelfReportBreaksTree gives the shortest one that does not.
- `CyBtldr_TryParseParketStatus` trusts the length field of a failed transfer's reply; SessionUndefinedIff
  says exactly when that makes a session undefined, LongLength gives an input.
- `parse_packets` means to drop lines that are too long, but ends a line of exactly 255 characters one past
  its buffer (LineOf255), and forgets between reads that a line is too long (LineOf256).
- eigen_packet_filter.h:19-20 says that the queue is sorted by time, so that the timeout loop need not search
  it. SortedIff and EarlyStopIff say for which clocks, SetBackMissesOne gives readings for which it fails.
- eigen_packet_filter.cpp:256-257 expects no more responses than a byte counts. BroadcastSucceedsIff says which
  number is misread, FullBroadcast gives a run that reaches it.

## Model

| member | source | states |
|---|---|---|
| TopologyTracker.Tracker.constructor | eigen_topology_tracker.cpp:4-7 | a new tracker has only the root, in the index at depth 0, and all structures agree |
| TopologyTracker.Tracker.UpdateDepth | eigen_topology_tracker.cpp:373-391 | terminates on every graph, loops included (the measure is how far the guard is away), and visits the node and every node that climbs to it exactly once, nobody else; afterwards the node has the depth after its parent's, every visited node the depth after its own parent's, nobody else has changed, and the index lists everybody once at the new depth |
| TopologyDepths.ChildVisited | eigen_topology_tracker.cpp:387-390 | the visits to the children so far and the visit to one more child have no node in common and make up the nodes below all of them |
| TopologyDepths.AllDone | eigen_topology_tracker.cpp:387-390 | the subtrees of the children, done one after the other, make up the recalculation of the whole subtree, also when the visit closes on the starting node |
| TopologyDepths.SiblingsDisjoint | eigen_topology_tracker.cpp:387-390 | no node is visited through two children, because each address sits in at most one child map |
| TopologyDepths.RecalculatedExact | eigen_topology_tracker.cpp:399-410 | after re-hanging a node and one recalculation, whoever reaches the root in d links has depth d, whether or not the new link closed a loop |
| TopologyTracker.Tracker.SetParent | eigen_topology_tracker.cpp:399-410 | the parent field is set, the port fields are reset, and links, depths and index agree again for the whole graph |
| TopologyTracker.Tracker.AddChild | eigen_topology_tracker.cpp:418-426 | exactly one link is added, and depths and index are exact for the larger graph |
| TopologyTracker.Tracker.RemoveChild | eigen_topology_tracker.cpp:434-438 | exactly one link is taken out of the child maps |
| TopologyTracker.Tracker.RemoveDepth | eigen_topology_tracker.cpp:221-238 | the loop with erasures leaves the level without the address, and drops a last level that becomes empty, one at most |
| TopologyTracker.Tracker.AddDepth | eigen_topology_tracker.cpp:247-256 | levels are created as needed and the node is appended to its level |
| TopologyIndex.RemovedIndex | eigen_topology_tracker.cpp:221-238 | removing by address at the recorded depth leaves an index of everybody else, each once at the right depth |
| TopologyIndex.AddedIndex | eigen_topology_tracker.cpp:247-256 | adding a node that the index does not hold gives an index of one node more, each once at the right depth |
| TopologyTracker.Tracker.AddNode | eigen_topology_tracker.cpp:98-127 | a new node hangs below the root or is ready to be attached; an existing one is fetched unchanged if it has that parent, goes to the top level if no parent is given, and is otherwise taken from wherever it was; no other link or port has changed |
| TopologyTracker.Tracker.AttachChild | eigen_topology_tracker.cpp:69-74 | a reported port moves the node at its address, with its subtree, below the reporter and tags it with the port; ports that are empty or already known change nothing |
| TopologyTracker.Tracker.AttachDownstream | eigen_topology_tracker.cpp:66-75 | all ports of a report are applied in order, with a byte as port index |
| TopologyTracker.Tracker.RemoveNode | eigen_topology_tracker.cpp:135-154 | the node is gone, its children hang below the root with fresh port fields, everything else is as before |
| TopologyTracker.Tracker.AddUpdate | eigen_topology_tracker.cpp:25-29 | the update goes to the end of the queue, whatever it is; the queue stays free of modules with the root's address exactly if this is none |
| TopologyTracker.Tracker.ProcessUpdates | eigen_topology_tracker.cpp:50-90 | the queue is processed in order up to a null update, which stays; the topology is that of the processed history, of which PlacesRight says where each module hangs, and all structures agree |
| TopologyTracker.Tracker.FieldsAgree | eigen_topology_tracker.cpp:399-410 | parent, port number and port name of a node are those recorded for it |
| TopologyTracker.Tracker.GetDepthList | eigen_topology_tracker.cpp:196-204 | for every depth, exactly the nodes whose depth field has that value, each once, in every reachable state |
| TopologyTracker.Tracker.LevelIsDepth | eigen_topology_tracker.cpp:196-256 | level d of the index is the set of nodes with depth field d, without repetition; levels that do not exist stand for no nodes |
| TopologyTracker.Tracker.DepthIsDistance | eigen_topology_tracker.cpp:384 | in every state, loops or not, a node that reaches the root has its distance as depth, at most 255, so the byte never wraps |
| TopologyTracker.Tracker.DepthListIsDistance | eigen_topology_tracker.cpp:196-204 | in a tree, the list for depth d holds exactly the nodes d links away from the root |
| TopologyTracker.Tracker.LinksAgree | eigen_topology_tracker.cpp:342-426 | parent fields and child maps are inverse to each other, and agree with the address map, for every node |
| TopologyGraph.ClimbsBound | eigen_topology_tracker.cpp:373-391 | no climb to a parentless end is longer than the graph is big |
| TopologyGraph.AddressCount | eigen_topology_tracker.cpp:384 | there are at most 255 addresses besides the root's |
| TopologyTracker.Tracker.MaxDepthIff | eigen_topology_tracker.cpp:206-210 | with d the depth of the deepest node, max_depth is d + 1 exactly when the last level is in use and there are fewer than 256 levels, and d, as eigen_topology_tracker.h:46 has it, only for a lone root under 255 empty levels |
| TopologyLevels.EmptyLevelStays | eigen_topology_tracker.cpp:206-238 | three modules in a chain and the middle one removed: the deepest node is at depth 1, and max_depth is 3 |
| TopologyLevels.FullChain | eigen_topology_tracker.cpp:206-210 | a chain of 255 modules: the deepest node is at depth 255, and max_depth is 0 |
| TopologyIndex.RelistedIndex | eigen_topology_tracker.cpp:384-386 | out of the old level and into the new one: everybody is listed once again, with the one new depth |
| TopologyIndex.RootAddressUnlistsRoot | eigen_topology_tracker.cpp:221-238 | indexing a new node with the root's address takes the root out of level 0, because the index is cleared by address: why no module may have that address |
| TopologyTheorems.AttachKeepsTreeIff | eigen_topology_tracker.cpp:418-426 | hanging c below n keeps the tree exactly when c is neither n nor above n |
| TopologyTheorems.DownstreamKeepsTreeIff | eigen_topology_tracker.cpp:60-76 | a downstream report keeps the tree exactly when no port names the reporter or one of its ancestors; once one does, later ports cannot repair it |
| TopologyTheorems.RemoveKeepsTree | eigen_topology_tracker.cpp:135-154 | removing a node leaves one tree: its orphans still reach the root |
| TopologyTheorems.AddKeepsTree | eigen_topology_tracker.cpp:78-80 | an added module leaves one tree |
| TopologyTheorems.ApplyKeepsTreeIff | eigen_topology_tracker.cpp:50-90 | from a tree, an update gives a tree exactly when it is not a report that closes a loop |
| TopologyTheorems.HistoryKeepsTree | eigen_topology_tracker.cpp:50-90 | over every history without loop-closing reports, every recorded address reaches the root: the strict tree of README.md:5 |
| TopologyTheorems.HistoryIsTreeIff | eigen_topology_tracker.cpp:50-90 | the graph is one tree after every prefix of a history if and only if no report, at its turn, names the reporter or one of its ancestors |
| TopologyTheorems.SelfReportBreaksTree | eigen_topology_tracker.cpp:60-76 | a module that is added and then reports itself at its own port is its own parent: no tree any more |
| TopologyPlaces.AddedPlaces | eigen_topology_tracker.cpp:78-80 | an added module hangs below the root with empty port fields if it was not recorded; if it was, it stays where it is, and so does everybody else |
| TopologyPlaces.ReportPlaces | eigen_topology_tracker.cpp:60-76 | a report moves exactly the modules its ports name that do not hang below the reporter yet; each ends there with the number and name of the first port that names it |
| TopologyPlaces.RemovalPlaces | eigen_topology_tracker.cpp:81-84 | a removal takes out the module, its children go below the root with empty port fields, nobody else is touched |
| TopologyPlaces.NothingElse | eigen_topology_tracker.cpp:57-84 | reports of unrecorded modules, updates without a module and other updates change nothing |
| TopologyPlaces.PlacesRight | eigen_topology_tracker.cpp:50-90 | over every history: following one module by itself, through the updates about it and about the module it hangs below, gives exactly the parent and port fields recorded for it |
| TopologyPlaces.NodeFields | eigen_topology_tracker.cpp:50-90 | the same for the fields of the nodes themselves |
| TopologyPlaces.ReportedBeforeHeard | eigen_topology_tracker.cpp:78-80 | a module that a neighbour reports before it is added itself stays at that port |
| PacketTracker.Tracker.AddPacket | eigen_packet_filter.cpp:34-44 | the command joins the end of the queue with the present time, and is counted as sent |
| PacketTracker.Tracker.HandleTimeoutPackets | eigen_packet_filter.cpp:71-105 | the loop ends whatever the clock does, and does what the timeout function says, with time differences in 64 bits; what it queues for writing, TimeoutsQueued says |
| PacketClock.ExpiredIff | eigen_packet_filter.cpp:289-291 | a filter has expired exactly when more than 601 ms have passed since it was sent; if the clock has stepped back since, it has expired at once |
| PacketTracker.Tracker.HandleSuccessfulPackets | eigen_packet_filter.cpp:107-125 | the loop with erasures in the middle takes out exactly the finished filters, in order |
| PacketTracker.Tracker.MatchResponse | eigen_packet_filter.cpp:132-185 | the oldest waiting command gets the response, otherwise it is counted as unrequested or spontaneous; which commands wait, OldestWaitingTakes and NobodyTakes say |
| PacketTracker.Tracker.Service | eigen_comms.cpp:341-445 | the order of calls in one cycle; written is what was queued, then the packets of the commands resent in this cycle, in the order of the log, then those of the new commands, one by one |
| PacketFilter.BudgetStep | eigen_packet_filter.cpp:77-102 | every timeout uses up one try, so the loop terminates for every clock |
| PacketFilter.FirstMatch | eigen_packet_filter.cpp:139-143 | the position of the oldest filter that matches; no older one does |
| PacketTheorems.AddKeepsGood | eigen_packet_filter.cpp:34-44 | sending keeps the invariant: each command accounted for once, resends counted by the filter, sent = pending + successful + dropped + silently expired |
| PacketTheorems.TimeoutStepKeepsGood | eigen_packet_filter.cpp:77-102 | one timeout keeps the invariant, at any time: the command is taken out once or stays once with one more resend, and only an empty packet expires silently |
| PacketTheorems.TimeoutKeepsGood | eigen_packet_filter.cpp:71-105 | the whole pass keeps the invariant, for every clock |
| PacketTheorems.MatchKeepsGood | eigen_packet_filter.cpp:132-185 | crediting a response keeps the invariant; each filter has at most one response per address |
| PacketTheorems.SuccessKeepsGood | eigen_packet_filter.cpp:107-125 | clearing successes keeps the invariant, and leaves no finished filter behind |
| PacketTheorems.DistinctIds | eigen_packet_filter.cpp:34-44 | no command is in the queue twice |
| ServiceCycle.RunsKeep | eigen_comms.cpp:341-445 | over every run and for every clock: every command is accounted for exactly once, only waiting filters are pending between cycles, and none was resent or dropped after its answer |
| ServiceCycle.UnicastResponses | eigen_packet_filter.cpp:255-277 | a unicast filter has at most one response, so its byte count is right |
| ServiceCycle.BroadcastResponses | eigen_packet_filter.cpp:255-277 | a broadcast filter has at most 256 responses, and its byte count reads 0 for none or for all of them |
| ServiceCycle.BroadcastSucceedsIff | eigen_packet_filter.cpp:77-102 | a broadcast that times out is counted as successful exactly if it has from 1 to 255 responses; with all 256 it is resent, dropped or silently discarded |
| ServiceCycle.FullBroadcast | eigen_packet_filter.cpp:77-102 | a run reaches that case: a broadcast answered by all 256 addresses in one cycle is resent at its next timeout as if nobody had answered |
| ServiceCycle.ResendBound | eigen_packet_filter.cpp:71-102 | with max_retries fixed, over every run and for every clock no command is resent more than max_retries times |
| PacketClock.RunsStamped | eigen_comms.cpp:341-445 | over every run and for every clock the queue is in the order of the clock readings at which its filters were last sent |
| PacketClock.SortedIff | eigen_packet_filter.cpp:71-76 | the queue is sorted by send time in every run, as eigen_packet_filter.h:19-20 has it, if and only if the clock never steps back |
| PacketClock.FirstSpeaksForAll | eigen_packet_filter.cpp:71-76 | in a queue sorted by times that have passed, none has expired if the first has not |
| PacketClock.EarlyStopIff | eigen_packet_filter.cpp:71-76 | in every run the loop, which stops at the first filter that has not expired, leaves no expired filter anywhere, if and only if no reading of the clock finds an earlier one within 601 ms and a later one further away |
| PacketClock.MonotoneIsSteady | eigen_packet_filter.cpp:71-76 | a clock that never steps back is one of those |
| PacketClock.SetBackMissesOne | eigen_packet_filter.cpp:71-105 | readings 1000, 500, 1102: two commands are sent, the loop stops at the first, 102 ms old, and the second stays, 602 ms old; the queue is not sorted |
| PacketClock.RunsTimed | eigen_comms.cpp:341-445 | with a clock that never steps back, over every run: each resend comes at least 602 ms after the sending before, each drop at least 602 ms for every try after the first sending |
| PacketClock.DropDistance | eigen_packet_filter.cpp:71-102 | with max_retries fixed and such a clock, a command is dropped (max_retries + 1) * 602 ms after its first sending at the earliest |
| ServiceCycle.AnsweredIsDone | eigen_comms.cpp:425-434 | for every clock: a unicast command answered in a cycle is counted as successful in that cycle, ends exactly once, and is never sent again in any later run |
| ServiceCycle.RunsQuiet | eigen_comms.cpp:341-445 | for every clock: nothing ever happens again to a command that has left the queue |
| PacketLaws.OldestWaitingTakes | eigen_packet_filter.cpp:138-165 | a response is credited to the oldest command that is addressed to its sender or to all, has had none from there, and expects a text that occurs in it; nothing else changes |
| PacketLaws.NobodyTakes | eigen_packet_filter.cpp:167-185 | a packet that is no response, or none that any command waits for, changes one counter: spontaneous if it says so, else unrequested |
| PacketLaws.OthersLeaveIt | eigen_packet_filter.cpp:267-278 | a response from another module, or with another text, leaves a command as it was |
| PacketLaws.ExpectedInOrder | eigen_comms.cpp:226-229 | the responses a packet announces are expected from its sender, in their order, as commands with no text |
| PacketLaws.CommandAnswered | eigen_comms.cpp:341-445 | a unicast command and, in the same cycle, a packet from its module that contains what it expects: unless an older command waits for that packet, it ends as successful in this cycle, once, is never sent again in any later run, and the packet is not counted as unrequested |
| PacketLaws.LoneCommand | eigen_comms.cpp:341-445 | one command and one packet in a cycle: success exactly if the packet is a response from that module with the expected text; otherwise the command waits on and the packet is counted |
| PacketLaws.TimeoutsQueued | eigen_packet_filter.cpp:88-99 | the packets of all commands that a timeout pass resends are queued behind what was queued, in the order of the log |
| PacketLaws.CycleExplained | eigen_comms.cpp:341-445 | a cycle sends its commands in order and then expects what its packets announce; numbers, filters and events go with exactly these |
| PacketLaws.RunsExplained | eigen_packet_filter.cpp:71-185 | over every run and for every clock: every filter and event is about the command its number says, whatever counts as a response or a success was sent by the module and contains the expected text, only commands with a text are resent, and the counters and the last dropped packet are those of the log |
| CrcTables.Lookup8 | eigen_utils.cpp:6-39 | every entry of the CRC-8 table is its index after eight division steps by 0x07 |
| CrcTables.Lookup16 | eigen_bootloader.cpp:16-60 | every entry of the CRC-16 table is its index, in the top byte, after eight division steps by 0x1021 |
| Checksums.Crc8Ccitt | eigen_utils.h:157-166 | the table loop computes bit-serial polynomial division by 0x07 with seed 0xFF |
| Checksums.CrcCcitt | eigen_bootloader.cpp:62-77 | the table loop with its wide register computes bit-serial division by 0x1021; only the low 16 bits matter |
| Checksums.WideStepIsFeed | eigen_bootloader.cpp:71-72 | the bits above the low 16 never reach them |
| Checksums.FeedBitsIsShifts16 | eigen_bootloader.cpp:69-73 | feeding message bits one at a time is mixing them all in first and then dividing |
| ReflectedChecksums.CrcChecksum | cybootloaderutils/cybtldr_command.cpp:28-54 | the bit loop over 0x8408 is the FCS of appendix C.2 of RFC 1662, complemented, with its bytes swapped |
| ReflectedChecksums.FcsIsDivision | cybootloaderutils/cybtldr_command.cpp:37-47 | the table-driven FCS of RFC 1662 equals bit-serial reflected division |
| ReflectedChecksums.SumChecksum | cybootloaderutils/cybtldr_command.cpp:57-61 | the 16-bit number that makes the sum of all bytes zero modulo 0x10000 |
| ReflectedChecksums.Crc32c | cybootloaderutils/cybtldr_command.cpp:65-95 | the nibble-table loop is CRC-32C, section 12.1 of RFC 3720: bit-serial reflected division, complemented |
| ReflectedChecksums.NibbleIsShifts | cybootloaderutils/cybtldr_command.cpp:89-92 | one table step is four division steps, for every register |
| CrcDetection.OneByteChanged8 | eigen_utils.h:157-166 | texts that differ in exactly one byte have different CRC-8 values |
| CrcDetection.OneByteChanged16 | eigen_bootloader.cpp:62-77 | texts that differ in exactly one byte have different CRC-16 values |
| CheckValues.CheckCrc8 | eigen_utils.h:157-166 | the CRC-8 of "123456789" is 0xFB |
| CheckValues.CheckCrc16 | eigen_bootloader.cpp:62-77 | the CRC-16 of "123456789" is 0x29B1, that of CRC-16/CCITT-FALSE |
| CheckValues.CheckFcs | cybootloaderutils/cybtldr_command.cpp:28-54 | the CRC of a frame is 0x6E90 for "123456789", the X.25 check value 0x906E with its bytes swapped |
| CheckValues.CheckSum | cybootloaderutils/cybtldr_command.cpp:57-61 | the sum checksum of "123456789" is 0x10000 - 477 |
| CheckValues.CheckCrc32c | cybootloaderutils/cybtldr_command.cpp:65-95 | the CRC-32C of "123456789" is 0xE3069283 |
| CrcDetection.FeedByte16Onto | eigen_bootloader.cpp:69-73 | with every byte, every register of the CRC-16 is the result of a step |
| CrcDetection.FeedByte8Injective | eigen_utils.h:160-163 | equal results with equal registers need equal bytes, and with equal bytes equal registers |
| CrcDetection.FeedByte8Onto | eigen_utils.h:160-163 | every register is the result of a step, from every register with some byte and with every byte from some register: the step is a bijection in both |
| LineFraming.FrameIsOneLine | eigen_comms.cpp:64-73 | whatever was queued before, a frame adds exactly its one line |
| LineReads.ReadsFollow | eigen_comms.cpp:274-318 | for every stream of bytes and every way to cut it into reads: the buffer is overrun exactly if a line end comes while 255 characters are stored and no excess one of that line was seen earlier in the same read; without that, exactly the lines of at most 254 characters have been queued, in order |
| LineReads.ReadFollows | eigen_comms.cpp:286-312 | the same for one read, from any state between reads, with its flag |
| LineReads.CutsDoNotMatter | eigen_comms.cpp:274-318 | if no line has more than 254 characters, the same lines are queued in the same order however the stream is cut |
| LineReads.LineOf255 | eigen_comms.cpp:291-299 | a line of exactly 255 characters overruns the buffer in every cut |
| LineReads.LineOf256 | eigen_comms.cpp:279-308 | a line of 256 characters is dropped cleanly if its last character and its end are read together, and overruns the buffer if its end is read alone: the flag does not outlive a read |
| LineFraming.ResponseAccepted | eigen_comms.cpp:180-215 | a framed response is accepted, with its address and body intact |
| LineFraming.AcceptIff | eigen_comms.cpp:180-215 | exactly which lines are accepted and as what: a dot, two digits of address and no third, the body, a colon, the checksum of all before it, where missing digits count as not there |
| LineFraming.NotBothAccepted | eigen_comms.cpp:184-209 | two lines with the same checksum field whose bodies differ in one byte are never both accepted |
| LineReads.ResponsesArrive | eigen_comms.cpp:180-318 | any responses, framed one after the other and cut into any reads, come out as exactly those responses, in order, with address and body intact |
| LineSplitter.Splitter.ParsePackets | eigen_comms.cpp:274-318 | one read of any bytes, with buffer, pointer and flag: lines are queued, kept or dropped as the stepwise definition says, and an overrun is noticed where it happens |
| LineSplitter.Splitter.ParseAll | eigen_comms.cpp:274-318 | the object over any number of reads of any bytes: an overrun happens exactly under the condition of ReadsFollow; otherwise queue and buffer are those of the plain definition |
| LineSplitter.Splitter.ReceiveResponses | eigen_comms.cpp:180-318 | the object over the framed responses of modules, in any cut: nothing is overrun, and every queued line is accepted with its address and body |
| LineReads.FramesFit | eigen_comms.cpp:64-73 | frames of bodies of up to 251 characters always fit the receiver's buffer |
| BootloaderTransport.Sender.WriteData | eigen_bootloader.cpp:311-340 | the lines of the plain definition are queued, the last is remembered for resending, the sequence number moves on by one byte |
| BootloaderTransport.Sender.FillLine | eigen_bootloader.cpp:318-328 | one line takes as many bytes as the buffer holds, and cuts off the digits that do not fit |
| BootloaderTransport.WireParsesBack | eigen_bootloader.cpp:217-284 | what is printed for a frame parses back to the frame at the same sequence number |
| BootloaderTransport.FrontReads | eigen_bootloader.cpp:318-321 | every line begins with the address of the target in two digits, a tilde and a d |
| BootloaderTransport.TakenIs | eigen_bootloader.cpp:323-328 | a line takes bytes until the buffer of 128 is full, at most sixty |
| BootloaderTransport.ParsePacketIff | eigen_bootloader.cpp:217-284 | a text is accepted as certain bytes exactly if its three fields hold their number, their CRC and the expected sequence number and the bytes follow as digit pairs |
| BootloaderTransport.WrongNumberIff | eigen_bootloader.cpp:274-276 | a text is refused for its sequence number exactly if it would be accepted at another one |
| BootloaderTransport.NumberDecides | eigen_bootloader.cpp:274-276 | the line for a frame is accepted at the sequence number it was sent with, and refused for its number at every other |
| BootloaderTransport.FrameSurvivesIff | eigen_bootloader.cpp:217-340 | a frame of 1 to 255 bytes goes out as a line that parses back to it exactly when it has at most 56 bytes |
| BootloaderTransport.NotBothParsed | eigen_bootloader.cpp:217-284 | lines with the same checksum field whose payloads differ in one byte are never both accepted |
| CyFrames.ComputeChecksum16 | cybootloaderutils/cybtldr_command.cpp:26-63 | either checksum, by the type selected |
| CyFrames.CreateCmd | cybootloaderutils/cybtldr_command.cpp:123-133 | in place: start byte, code, length, the data already there, checksum, stop byte; the rest of the buffer is untouched |
| CyFrames.CreatedIsParsed | cybootloaderutils/cybtldr_command.cpp:426-442 | a created frame is recognised with its own code, whatever follows it, for both checksum types |
| CyReplies.StatusIff | cybootloaderutils/cybtldr_command.cpp:426-442 | a packet is sound, with its code or status, exactly if a frame with that code and the right length and checksum stands at its front |
| CyReplies.AcknowledgedIff | cybootloaderutils/cybtldr_command.cpp:102-114 | a reply is an acknowledgement exactly if the transfer has not failed and a well-formed reply with the expected amount of data stands in the buffer; its checksum is not looked at |
| CyReplies.RefusedWhy | cybootloaderutils/cybtldr_command.cpp:102-114 | otherwise the error is the failed transfer with the communication bit, the status of the device, or malformed data, in this order |
| CyReplies.RangeIff | cybootloaderutils/cybtldr_api.cpp:62-79 | the rows from the first to the last that the device reports are valid and no others |
| CyReplies.BeyondIff | cybootloaderutils/cybtldr_command.cpp:426-442 | a length field of 506 or more, behind a start byte, leads beyond the reply buffer |
| CyReplies.EntryOutcome | cybootloaderutils/cybtldr_api.cpp:107-126 | an acknowledged entry: a wrong silicon id or revision is reported first, then a wrong version |
| CyReplies.EntryFails | cybootloaderutils/cybtldr_api.cpp:115-118 | a failed entry: the status of a sound packet in the buffer decides, else the code of the transfer; with a length that leads beyond the buffer it is undefined |
| CyReplies.AppStatusOutcome | cybootloaderutils/cybtldr_api.cpp:173-197 | the same for the state of an application |
| CyReplies.RunningTarget | cybootloaderutils/cybtldr_api2.cpp:132-143 | an application that is running is neither programmed nor erased, but may be verified |
| CyReplies.ProgrammedTarget | cybootloaderutils/cybtldr_api2.cpp:168-180 | a programmed application is made active if the flag read is 0, which the comment at line 174 calls valid, and is a checksum error otherwise |
| CyReplies.SingleApplication | cybootloaderutils/cybtldr_api2.cpp:180-184 | a device that does not know the request for the state of an application has one, and the session succeeds |
| CyReplies.WrongChecksum | cybootloaderutils/cybtldr_api.cpp:331-355 | a row is right exactly if the device reports the expected checksum |
| CyReplies.InvalidApplication | cybootloaderutils/cybtldr_api.cpp:357-377 | an application is right exactly if the device does not report 0 |
| CyReplies.AbortStops | cybootloaderutils/cybtldr_api2.cpp:146-152 | an abort stops the loop before the next line, with nothing more sent |
| CyErrors.CommBitIs | cybootloaderutils/cybtldr_api.cpp:36-37 | the communication bit is the one of weight 0x2000, also of negative codes, and setting it changes nothing else |
| CyFrames.FrameSurvivesStack | cybootloaderutils/cybtldr_command.cpp:123-133 | a frame of at most 56 bytes becomes one line of text, the line parses back to the frame, and the frame is recognised with its own code |
| CyParse.FromHex | cybootloaderutils/cybtldr_parse.cpp:49-58 | the value of a digit in either case; 0 for every other character |
| CyParse.FromAscii | cybootloaderutils/cybtldr_parse.cpp:60-77 | an even number of characters fills half as many bytes, an odd number is refused and nothing is written |
| CyParse.HexBytesPack | cybootloaderutils/cybtldr_parse.cpp:60-77 | printed bytes read back |
| CyParse.ParseRowData | cybootloaderutils/cybtldr_parse.cpp:210-248 | all four error cases and the fields of a row, although the size field may be read from memory never written |
| CyParse.ParseRowIff | cybootloaderutils/cybtldr_parse.cpp:210-248 | a line parses as a row exactly when it is a colon and the row's bytes in hexadecimal, a character that is no digit counting as 0 |
| CyParse.RowRefusedWhy | cybootloaderutils/cybtldr_parse.cpp:210-248 | why a line is no row: too short, a wrong first character, half a byte too much, or a wrong size field, in this order |
| CyParse.RowRoundTrip | cybootloaderutils/cybtldr_parse.cpp:210-248 | what is printed as a row line parses as that row |
| CyParse.ParseHeaderLine | cybootloaderutils/cybtldr_parse.cpp:154-179 | silicon id, revision and checksum type of a header line; too short or odd lines are refused |
| CyParse.HeaderRoundTrip | cybootloaderutils/cybtldr_parse.cpp:154-179 | what is printed as a header line parses as that header |
| CyParse.ParseHeaderIff | cybootloaderutils/cybtldr_parse.cpp:154-179 | exactly the lines that parse as a header: an even number of characters, at least ten, id and revision big-endian; a missing checksum type is 0 |
| CyFile.DataFile.ReadLine | cybootloaderutils/cybtldr_parse.cpp:79-105 | the next line that is not a comment, without its line ending, or the end of the file, or an error |
| CyFile.CleanEndIff | cybootloaderutils/cybtldr_parse.cpp:79-105 | the end of the file is reported as such exactly when the text after the last newline fills whole buffers (above all, when there is none); otherwise as an inaccessible file |
| CyFile.WrittenLines | cybootloaderutils/cybtldr_parse.cpp:79-105 | written lines are read back in order, without the comments, with either line ending |
| CyFile.LongLineSplits | cybootloaderutils/cybtldr_parse.cpp:79-105 | a line of 1535 characters fills the buffer, and its newline is read as an empty line of its own |
| CyChunks.StopsInsideIff | cybootloaderutils/cybtldr_api.cpp:245-271 | the sending loop stops inside the row exactly when the row fits one frame or its remainder fits the last frame |
| CyChunks.RowsAreCutExactly | cybootloaderutils/cybtldr_api.cpp:245-306 | for every row meeting that condition: the payloads and the last frame's data are the row again, and every frame keeps to the transfer size, for both header sizes |
| CyChunks.ChunksRebuild | cybootloaderutils/cybtldr_api.cpp:258-269 | from any offset on: nothing lost, nothing sent twice |
| CyChunks.CommonRowSizes | eigen_bootloader.cpp:80 | with 52 bytes, rows of 64, 128 and 256 bytes meet the condition; a row of 133 bytes does not |
| CySession.Session.constructor | cybootloaderutils/cybtldr_api.cpp:21-22 | no connection, nothing known of any array |
| CySession.Session.TransferData | cybootloaderutils/cybtldr_api.cpp:29-40 | one frame is exchanged; a failing transfer has the communication bit set |
| CySession.Session.ParseGenericCmdResult | cybootloaderutils/cybtldr_command.cpp:102-114 | length, status, then form decide, in that order |
| CySession.Session.ValidateRow | cybootloaderutils/cybtldr_api.cpp:42-85 | the device is asked only if nothing is known of the array; then the row must lie in the range |
| CySession.Session.StartBootloadOperation | cybootloaderutils/cybtldr_api.cpp:87-130 | what is known is forgotten, the connection opened, the bootloader entered; id, revision and version decide, and after a failed transfer a sound packet in the buffer; a length field that leads beyond the buffer makes it undefined |
| CySession.Session.GetApplicationStatus | cybootloaderutils/cybtldr_api.cpp:173-197 | both flags of the application, or the error, with the same override and the same undefined case |
| CySession.Session.EndBootloadOperation | cybootloaderutils/cybtldr_api.cpp:223-243 | the exit is written and, if that succeeds, the connection closed; afterwards there is no connection, so no method that needs one can be called |
| CySession.Session.SendData | cybootloaderutils/cybtldr_api.cpp:245-271 | chunks are sent until the rest fits or a command fails |
| CySession.Session.ProgramRow | cybootloaderutils/cybtldr_api.cpp:273-306 | check, send ahead, program |
| CySession.Session.EraseRow | cybootloaderutils/cybtldr_api.cpp:308-329 | check, erase |
| CySession.Session.VerifyRow | cybootloaderutils/cybtldr_api.cpp:331-355 | check, ask for the checksum, compare |
| CySession.Session.VerifyApplication | cybootloaderutils/cybtldr_api.cpp:357-377 | the device must call the application valid |
| CySession.Session.ProcessDataRow | cybootloaderutils/cybtldr_api2.cpp:18-51 | parse, act, and report progress on success only; which rows succeed, SoundFileIff says |
| CySession.Session.RunRows | cybootloaderutils/cybtldr_api2.cpp:146-164 | rows until the end of the file, an error or an abort |
| CySession.Session.RunAction | cybootloaderutils/cybtldr_api2.cpp:103-197 | the whole session: every error code and every event on the connection, for every device, is that of the plain definition |
| CySession.Session.RunFile | cybootloaderutils/cybtldr_api2.cpp:266-304 | a whole file from its first line: an unreadable or empty header line ends it before the connection is opened |
| CyTrace.ValidateGood | cybootloaderutils/cybtldr_api.cpp:42-85 | asking for the flash size keeps the table equal to what the replies since the opening say, and is done only when nothing is known |
| CyTrace.RowRefused | cybootloaderutils/cybtldr_api.cpp:42-85 | a row of a flash array outside the range known of it is refused, and nothing at all is sent |
| CyTrace.RowRefusedWhenAsked | cybootloaderutils/cybtldr_api.cpp:42-85 | if nothing is known, the device is asked, and a row outside its answer is refused with nothing else sent |
| CyTrace.RowInRange | cybootloaderutils/cybtldr_api.cpp:42-85 | a row of a flash array that an action succeeds on lies in the range the device has reported |
| CyTrace.CommandGood | cybootloaderutils/cybtldr_api.cpp:29-40 | every other command keeps that table, and its frame is sound and fits |
| CyTrace.RowsGood | cybootloaderutils/cybtldr_api2.cpp:146-164 | the same over the whole loop, for every device and file |
| CyTrace.EverySession | cybootloaderutils/cybtldr_api2.cpp:103-197 | for every device, file and action: the connection is opened, only sound frames of at most the transfer size follow, a flash size is asked for only while the table entry is 0, and after the exit comes nothing but the closing; the exit is missing exactly if the session is undefined or has failed before its conclusion with the communication bit set |
| CyTrace.SessionFramesArrive | eigen_bootloader.cpp:311-340 | on the eigenbus every frame of every session is one line of text that parses back to it |
| CyLog.SeeSent | cybootloaderutils/cybtldr_api.cpp:245-271 | read off the wire: the data sent ahead is exactly the row up to the final offset |
| CyLog.SeeProgram | cybootloaderutils/cybtldr_api.cpp:273-306 | read off the wire: a successful ProgramRow programs exactly the row's bytes at its place, and only rows that meet the chunking condition succeed |
| CySound.SoundIff | cybootloaderutils/cybtldr_api2.cpp:34-42 | the checksum expected of the device is the complement of the sum of the data if and only if all bytes of the row's line add up to zero |
| CySound.SoundFileIff | cybootloaderutils/cybtldr_api2.cpp:18-51 | against a device that reports the complement of the data it has programmed, a written file succeeds exactly if every row is sound and meets the chunking condition |
| CySound.DataDeviceDecides | cybootloaderutils/cybtldr_api2.cpp:18-51 | for every transfer size and header there is one such device, for all files |
| CyLog.SeeRow | cybootloaderutils/cybtldr_api2.cpp:28-46 | a row is programmed whole and then checked against the adjusted checksum, of which SoundIff says what it is; or checked; or erased |
| CyLog.SeeRows | cybootloaderutils/cybtldr_api2.cpp:146-164 | over the loop: one such act per line, in file order, all lines are rows, and the file is read to its end |
| CyLog.SeeBegin | cybootloaderutils/cybtldr_api2.cpp:117-143 | before the rows: opened, entered with the key, id, revision and a supported version; with applications 1 and 2, the target is not running unless it is only verified |
| CyLog.SeeConclude | cybootloaderutils/cybtldr_api2.cpp:166-190 | after the rows: the application is called valid; with applications 1 and 2, a programmed one is made active if the flag read is 0, and a device that does not know the request is taken for one with a single application |
| CyLog.SuccessfulSession | cybootloaderutils/cybtldr_api2.cpp:103-197 | a successful run against any device, for any application, did exactly this: what SeeBegin says, every row in file order programmed whole and checked, what SeeConclude says, left once; progress was reported once per row |
| CyWhole.SessionUndefinedIff | cybootloaderutils/cybtldr_api2.cpp:103-197 | with rows that meet the chunking condition, for every device: the session ends undefined if and only if the transfer of an ENTER or status command failed and left a start byte and a length field beyond the buffer in it; no device can drive the host past the end of a row |
| CyWhole.StatusTells | cybootloaderutils/cybtldr_command.cpp:426-442 | after a failed ENTER or status transfer the host reads beyond its 512 bytes exactly if byte 0 is the start byte and the length field plus 7 is more than 512 |
| CyWhole.LongLength | cybootloaderutils/cybtldr_command.cpp:426-442 | a failed ENTER transfer that leaves the length 0xFFFF behind makes every session undefined |
| CyWhole.WrittenFileSession | cybootloaderutils/cybtldr_api2.cpp:266-304 | a written file, run to success, makes any device do exactly what its rows say |
| CyWhole.UnterminatedFails | cybootloaderutils/cybtldr_parse.cpp:87-100 | a last line without its newline makes every run of a file fail |
| CyCooperation.CooperationIff | cybootloaderutils/cybtldr_api2.cpp:266-304 | against a device that acknowledges, identifies itself and reports what it was given, a written file is programmed successfully if all its rows meet the chunking condition, and the session ends undefined, past the end of a row, if one does not |
| CyCooperation.CooperationPossibleIff | cybootloaderutils/cybtldr_api2.cpp:18-51 | there is such a device for a file if and only if rows with the same place and data have the same checksum |
| CyCooperation.SessionEnds | cybootloaderutils/cybtldr_api2.cpp:266-304 | the same for every device that acknowledges and identifies itself and answers the checksum questions of the file in their order as the file has it, however it comes by the answers |
| CyCooperation.SuccessPossibleIff | cybootloaderutils/cybtldr_api2.cpp:266-304 | for every written file and transfer size there is a device against which it is programmed successfully if and only if all its rows meet the chunking condition: so the promises about successful sessions are empty for no file that can be programmed at all |
| CyCache.CacheIsTransparent | cybootloaderutils/cybtldr_api.cpp:55-72 | against a device that gives fixed answers about its geometry and does not mind being asked, the host and a host that asks every time end alike and send the same other frames |
| CyCache.SameCheck | cybootloaderutils/cybtldr_api.cpp:42-85 | one check gives the same result with the table and without |
| CyRowsV1.ParseRowData | cybootloaderutils/cybtldr_parse.cpp:250-288 | address and data of a row of the newer format, the byte sum, and the error cases |
| CyRowsV1.DataRowRefusedWhy | cybootloaderutils/cybtldr_parse.cpp:250-288 | why a line is no such row: too short, a wrong first character, half a byte too much, or no data, in this order |
| CyRowsV1.DataRowRoundTrip | cybootloaderutils/cybtldr_parse.cpp:250-288 | what is printed as such a row parses as that row |
| CyRowsV1.ParseDataRowIff | cybootloaderutils/cybtldr_parse.cpp:250-288 | exactly the lines that parse as such a row: a colon, the address in little-endian order, at least one byte of data |
| CyRowsV1.SendRowTo | cybootloaderutils/cybtldr_api.cpp:379-411 | the data is sent ahead with room for the larger header, then programmed or compared under its checksum |
| CyRowsV1.ProcessRow | cybootloaderutils/cybtldr_api2.cpp:53-83 | parse, act, and report the upper half of the address |
| CyRowsV1.SuccessfulRow | cybootloaderutils/cybtldr_api2.cpp:53-83 | read off the wire: the device gets the whole row, its address, and the CRC-32C of exactly these bytes; the upper half of the address is reported as progress |
| VectorMap.VectorMap.LowerBound | eigen_vector_map.cpp:87 | the position that separates smaller addresses from the others |
| VectorMap.VectorMap.Insert | eigen_vector_map.cpp:119-128 | vector and map hold the same modules, ascending; an address already present changes nothing |
| VectorMap.VectorMap.Remove | eigen_vector_map.cpp:82-93 | exactly the module at the address goes; the mismatch exception is never thrown |
| VectorMap.VectorMap.RemoveInd | eigen_vector_map.cpp:100-111 | exactly the module at the position goes; the mismatch exception is never thrown |
| VectorMap.VectorMap.ClearOld | eigen_vector_map.cpp:164-183 | removes exactly the stale modules and reports them in ascending order; ends whenever there are at most 255 modules or one of them is stale |
| VectorMap.VectorMap.Keys | eigen_vector_map.cpp:146-155 | the addresses of the map |
| VectorMap.AtMost255 | eigen_vector_map.cpp:119-128 | without a module at 0xFF there are at most 255 |
| VectorMap.StaleIff | eigen_vector_map.cpp:164-183 | a module is stale exactly after more than the given time without an update; an update dated in the future counts as very old |
| VectorMap.FullListNeverEnds | eigen_vector_map.cpp:166-180 | with 256 fresh modules the byte index wraps and the loop runs for ever |
| Debounce.Module.UpdateDownstream | eigen_module.cpp:69-115 | the port's address is that of the plain definition over all reports about it, `changed` says whether it is new, its name and all other ports are untouched; the names are asked for if the port has none, the topology exactly if the report repeats the last differing one without settling it |
| Debounce.Module.SetDownstreamName | eigen_module.cpp:122-139 | only the name of the one port changes; ports added to make room are empty |
| Debounce.ReportSettles | eigen_module.cpp:89-112 | counter and pending address stand for the run of equal reports at the end of those that differ |
| Debounce.ChangesIff | eigen_module.cpp:92-105 | the address becomes a exactly when this report and the last three that differed since the previous change are all a |
| Debounce.RepeatsAreIgnored | eigen_module.cpp:92 | a report equal to the current address neither helps nor resets |
| Parameters.ParameterSet.Add | eigen_parameters.h:76-105 | the slot is filled, the others are untouched or padded empty, and the counter is the number of filled slots and nameless additions, modulo 256, under any additions and overwrites |
| Parameters.ParameterSet.SetExpectedParameters | eigen_parameters.h:118-124 | the expected number is set, the counter is kept |
| Parameters.ParameterSet.CompleteIff | eigen_parameters.h:126-133 | with named parameters at ids from 1 on the counter is the number of filled slots, and the set is valid exactly when that reaches the expected number; with no id beyond it, exactly when all slots from 1 on are filled |
| Parameters.ParameterSet.CounterRightIff | eigen_parameters.h:94-96 | in general the counter is the number of filled slots exactly when the nameless additions are a multiple of 256 |

## Left out

- TopologyTracker.Tracker.AddNode: leaves out address 0xFF, for the same reason as ProcessUpdates.
- TopologyTracker.Tracker.ProcessUpdates: assumes that no module at address 0xFF is added, which eigen_comms.cpp:401 with eigen_module.cpp:256 makes sure of; RootAddressUnlistsRoot shows what would break.
- PacketTracker.Tracker.MatchResponse: the latency windows, the raw packet log and the follow-up query for an unrequested packet are not modelled.
- PacketTracker.Tracker.Service: only the calls that reach the packet tracker are modelled, in their order; slow commands, polling and module set-up add commands, which are arbitrary here.
- PacketClock.RunsTimed: the distances in time are stated for clocks that never step back; for others there is none, as a filter sent later than the present reading expires at once (ExpiredIff).
- LineSplitter.Splitter.ParsePackets: stops where the original writes one past its buffer, and reports that; what the original does after is undefined.
- LineFraming.Accept: `strtol` is modelled on hexadecimal digits only; signs, blanks and a `0x` prefix in the checksum field are not.
- BootloaderTransport.ParsePacket: reads the three header fields the same way; and where a field has no comma after it, the original steps on, past the end of the text if it has to, before it refuses the packet (eigen_bootloader.cpp:233-241), while the model refuses it at once.
- BootloaderTransport.WireParsesBack: is about printed fields, which hold digits only.
- BootloaderTransport.Sender.FillLine: a line that takes 57 bytes of data counts 129 characters in a buffer of 128, and the original computes a checksum over them that it never uses (eigen_bootloader.cpp:330), reading one past the buffer; the read is not modelled.
- CySession.Session.SendData: a chunk that would read past the row counts as undefined behaviour before it is sent; the original sends bytes never written and then overruns its buffer.
- CyHost.RunFile: takes the file for one in the older format; the choice by file name is not modelled. Transfer sizes below 10, and below 15 for the newer format, are left out: the subtraction of the header size wraps around there.
- CyTrace.EverySession: says nothing of a key that makes the frame of ENTER longer than the transfer size, which takes a size below 13.
- CyCooperation.SessionEnds: this and what follows from it, in CySound too, is about a single application, as the eigenbus runs it.
- CyRowsV1.ProcessRow: the newer format is modelled row by row; its session, metadata lines and application start and size are not.
- VectorMap.VectorMap.ClearOld: with 256 modules that are all fresh the loop never ends; excluded by the precondition and shown by FullListNeverEnds.
- The waiting loop of `bootloader_read_data` and its retries: a transfer is one exchange that may fail.
- Counters' rates, average and peak latencies: sliding windows for display, on which nothing else depends.
- Mutexes, threads and the order of callbacks: each locked method is one atomic step.
- Destruction of nodes, modules, commands and variables: objects are garbage-collected.
- Command and response classes, variables, groups, polling and printing: thin data carriers and formatting.
