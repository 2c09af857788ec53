# V120 VME controller: verified model

The V120 is a VME crate controller. Its library and tools run on a host that sees up to sixteen
crates. This project models three parts of them and proves what they promise.

**The interrupt dispatch daemon.** Clients connect over a socket and register *selectors*: masks of
crates and of IRQ lines, and a vector or the wildcard. When a crate raises an interrupt the daemon
fetches its vector, finds the first registered selector that covers it, signals that client and waits
for its reply. The state has a poll list (crates, then the server socket, then the clients), a
growable table of registrations, the enable register of each crate, and the messages sent and read.

* `bits.dfy`, `selectors.dfy`: masks as sets of positions; the field-wise and one-word match tests.
* `vector_table_spec.dfy`, `vector_table.dfy`: the table as a sequence of entries, and the array that
  the program keeps, proved to refine it.
* `poll_list.dfy`: the allocated array that holds the poll list.
* `messages.dfy`, `errno.dfy`: the reply classification of the client library, and the error numbers.
* `daemon_spec.dfy`: the daemon as a state machine; whatever sockets, registers and memory do is part
  of an event. `daemon.dfy` is the imperative program, each method proved equal to its transition.
* `daemon_vme.dfy` (the interrupt search), `daemon_invariants.dfy` (what each step keeps),
  `daemon_handlers.dfy` (what each event leaves behind, in full), `daemon_walk.dfy` (the dispatch pass),
  `daemon_runs.dfy`, `daemon_exemptions.dfy`, `daemon_dispatch.dfy`, `daemon_delivery.dfy`,
  `daemon_counts.dfy`, `daemon_replies.dfy`, `daemon_polls.dfy` (theorems over runs).

**The VME page allocator.** Regions of VME space are placed on consecutive pages of a window of 8192
pages; each page has a descriptor with its VME address, and each region a mapping into the process.
`vme_pages.dfy` says what reading a byte through a mapping and a descriptor reaches; `vme_handle.dfy`
has the linked list of mappings, the linked list of regions, and the methods on them. The handle's
`live` and `unmapped` are the kernel's side: what is mapped now, and the calls made to unmap.

**Two small algorithms.** The bit-halving logarithm (`ilog2.dfy`) and the scan of VME space for runs of
acknowledged words (`scan.dfy`).

Main results, over every run from start-up: no fatal exit is taken; owners in the table are connected
clients; enabled lines are registered lines, and a registered line is off only because a search masked
it or its acknowledgement was lost and nothing since has undone that; a registration answers its own
selector until its owner takes it back, and until then every interrupt it covers is signalled; the
answer to a request changes only for the two reasons that should change it; reported counts are
conserved; and every request, release, faked interrupt and status query gets its reply, in order,
unless it was read right behind a signal to its sender, in place of the reply to that.
For the allocator: every byte of every region is reached at its own VME address. For
the table: the array with its shifting loops is the plain sequence.

Where the code and its own comments differ, the model follows the code:

* `enable_interrupts` (`v120irqd/v120irqd.c:432`) joins the crate mask and the crate's bit with a
  logical and, so a request enables its lines on every open crate and not, as the comment says, on the
  crates selected. `EnablesNamedCratesOnly` says exactly when a crate gets what the comment promises,
  and `RequestReachesOtherCrate` gives a run in which one does not.
* A NAK to an interrupt signal gives EPERM (`libV120irqd/interrupts.c:193`); the header
  (`include/v120irqd.h:200-201`) and the case labels of `process_vme` expect EBADMSG.
  `BadMessageExcludesNak` says exactly which responses give EBADMSG.
* `v120_allocate_vme` returns 8192 when every page is used (`libV120/V120.c:927`), not the zero of its
  comment. `WindowIsFull` says exactly when that happens and `LastPageFillsWindow` gives a case.
* A client's request is meant to be acknowledged or refused. One that arrives while the daemon awaits
  that client's reply to a signal is taken for the reply (`libV120irqd/interrupts.c:189-194`): it gets
  none itself, and the signal counts as failed. `AnsweredUnlessSwallowed` says that the answered ones
  are exactly those that the main loop receives, and that any other is read right behind a signal to
  its sender; `RequestIsSwallowed` gives a run.
* `remove_fd` moves one slot more than there are behind the removed one
  (`v120irqd/v120irqd.c:149`). `MoveStaysInside` says that this stays inside the allocated list exactly
  when some client has hung up since the last one was accepted; `FirstHangUpReadsBeyond` is a run in
  which it does not. The model moves the live slots.
* The interrupt search calls its last statement unreachable (`v120irqd/v120irqd.c:395`). It is, for
  every state that can be reached; `FatalNeedsStrayLine` says exactly what state would be needed.

## Model

| member | source | states |
|---|---|---|
| Selectors.CoversIsAntisymmetric | v120irqd/irq_vector_table.c:172-185 | an entry and a request cover each other exactly when they have the same crate mask, line mask and vector |
| Selectors.CoversIsTransitive | v120irqd/irq_vector_table.c:172-185 | covering is transitive, so with the above it is a partial order on keys |
| Selectors.MatchTestDecidesCovers | v120irqd/irq_vector_table.c:142-185 | the mask filter followed by the vector comparison accepts exactly the covering entries; the filter, which also compares vector bits, drops none of them |
| Selectors.PackedTestsAgree | v120irqd/irq_vector_table.c:126-156 | the one-word match and equality tests decide what the field-wise ones decide, for all selectors |
| VectorTables.ConstantMasks | v120irqd/irq_vector_table.c:262-265 | ANYIRQ stands for exactly the lines 1 to 7, and a byte for the positions 0 to 7 |
| VectorTables.LegalTest | v120irqd/irq_vector_table.c:258-265 | the validity checks accept exactly the selectors with some crate, some line, and no line but IRQ1 to IRQ7 |
| VectorTableSpec.FirstCover | v120irqd/irq_vector_table.c:158-185 | the position found covers the request and no earlier one does; the length of the table when none does |
| VectorTableSpec.AnswerIsFirstCover | include/irq_vector_table.h:56-68 | the answer is the first entry that covers the request, and there is one exactly when some entry does |
| VectorTableSpec.RegisterOutcome | v120irqd/irq_vector_table.c:253-310 | a registration is granted if and only if there is an owner, the selector is legal, no entry covers it and there is room; each error code if and only if its own condition is the first to apply; granted, it becomes the last entry |
| VectorTableSpec.ReleaseOutcome | v120irqd/irq_vector_table.c:334-357 | a release is granted if and only if the first entry with that key has that owner; exactly that entry goes, and otherwise EINVAL and no change |
| VectorTableSpec.LinesAreNamed | v120irqd/irq_vector_table.c:420-431 | a line is registered for a crate if and only if some entry has both bits set |
| VectorTableSpec.Without | v120irqd/irq_vector_table.c:388-410 | exactly the entries of other owners remain; what is lost is as many entries as the owner had |
| VectorTableSpec.WithoutOfConcat | v120irqd/irq_vector_table.c:399-404 | dropping an owner decides entry by entry and keeps the order: it distributes over tables in a row, and on one entry keeps or drops it |
| VectorTableSpec.LinesOfAppend | v120irqd/irq_vector_table.c:420-431 | an entry contributes exactly its own lines, to exactly the crates it names |
| VectorTableSpec.KeysAreUnique | v120irqd/irq_vector_table.c:273-281 | when no earlier entry covers a later one, an exact key occurs once, so a release's first exact match is the only one |
| VectorTableSpec.RegisterKeepsOrder | v120irqd/irq_vector_table.c:273-309 | registering keeps "no earlier entry covers a later one" |
| VectorTableSpec.RemoveKeepsOrder | v120irqd/irq_vector_table.c:196-211 | removing any entry keeps it |
| VectorTableSpec.WithoutKeepsOrder | v120irqd/irq_vector_table.c:389-410 | dropping all entries of an owner keeps it |
| VectorTableSpec.EntryAnswersItself | v120irqd/irq_vector_table.c:172-185 | every entry is found by its own selector, at its own position |
| VectorTableSpec.ReleaseUndoesRegister | include/irq_vector_table.h:71-80 | releasing the selector just registered succeeds and restores the table |
| VectorTableSpec.RegisterChangesAnswer | v120irqd/irq_vector_table.c:308-309 | a new last entry answers exactly the requests that it covers and nothing answered before |
| VectorTableSpec.RemoveChangesAnswer | v120irqd/irq_vector_table.c:196-211 | removing an entry changes an answer if and only if that entry was the answer |
| VectorTableSpec.WithoutChangesAnswer | v120irqd/irq_vector_table.c:389-410 | dropping an owner changes an answer if and only if that owner held it |
| VectorTables.VectorTable.LocateInterrupt | v120irqd/irq_vector_table.c:172-185 | the loop returns the first covering entry of the live prefix, and nothing exactly when there is none |
| VectorTables.VectorTable.RemoveEntry | v120irqd/irq_vector_table.c:196-211 | the shift in place deletes exactly the victim, keeps the rest in order, and restores the zeroed tail |
| VectorTables.VectorTable.FindInterrupt | v120irqd/irq_vector_table.c:214-241 | owner of the answering entry, with the request's payload replaced by the registered one; 0 and EINVAL when nothing answers |
| VectorTables.VectorTable.RegisterInterrupt | v120irqd/irq_vector_table.c:244-318 | returns 0 if and only if owner, selector, table and room allow it, and each error code if and only if its own condition holds; the entry is appended exactly on 0; the array grows by one increment exactly when it was full |
| VectorTables.VectorTable.ReleaseInterrupt | v120irqd/irq_vector_table.c:321-365 | removes the first exact match when it belongs to the caller; otherwise EINVAL and no change |
| VectorTables.VectorTable.CountRegisteredInterrupts | v120irqd/irq_vector_table.c:368-386 | the number of live entries |
| VectorTables.VectorTable.ReleaseAllInterrupts | v120irqd/irq_vector_table.c:389-410 | removing while standing on the same slot terminates and leaves the entries of other owners in order, with the array shape restored |
| VectorTables.VectorTable.ListRegisteredInterrupts | v120irqd/irq_vector_table.c:420-431 | bit k of byte c is set if and only if some entry names crate c and line k below 8 |
| VectorTables.RemovedWasDropped | v120irqd/irq_vector_table.c:400-404 | removing one entry of an owner leaves what dropping the owner would leave |
| Messages.HandshakeSucceedsOnAck | libV120irqd/interrupts.c:178-201 | a handshake succeeds if and only if an ACK was delivered; every other outcome is a negative code |
| Messages.HandshakeFailures | libV120irqd/interrupts.c:178-201 | a failed send or receive gives its own error, a closed connection ECONNRESET |
| Messages.BadMessageExcludesNak | include/v120irqd.h:200-201 | EBADMSG means a response other than ACK, if and only if it is not a NAK; a NAK gives EPERM |
| DaemonSpec.HighestLine | v120irqd/v120irqd.c:327-329 | the highest asserted line of 7 to 1, or 0 when there is none |
| DaemonVme.ConcreteIsConcrete | v120irqd/v120irqd.c:331-334 | the selector built for an interrupt names exactly one crate and one line, and carries the vector fetched |
| DaemonVme.FoundIsHighest | v120irqd/v120irqd.c:323-329 | the line a pass deals with is the highest of 7 to 1 that is enabled and asserted |
| DaemonVme.NotificationFails | v120irqd/v120irqd.c:275-293 | a notification fails if and only if no entry covers the interrupt or what comes back is not an ACK |
| DaemonVme.PassOutcome | v120irqd/v120irqd.c:323-393 | a pass ends the search exactly when no enabled line is asserted; otherwise it is acknowledged, masks, or finds the line dropped, each under its own condition on entry, reply and second reading |
| DaemonVme.NotifyEffect | v120irqd/v120irqd.c:275-293 | a notification sends exactly one signal if an entry answers and nothing otherwise, and changes nothing else but the messages |
| DaemonVme.DeliveryReachesOwner | v120irqd/irq_vector_table.c:214-241 | that signal goes to the owner of the first covering entry, for that very crate and line, with the payload asked for |
| DaemonVme.PassEffect | v120irqd/v120irqd.c:323-393 | one pass of the search changes enabled lines exactly when it masks, by removing one that was enabled, and nothing else but the messages |
| DaemonVme.PassMasksStuckLine | v120irqd/v120irqd.c:325-393 | a pass masks if and only if a line is stuck, and then masks that line: the highest asserted, whose interrupt failed or had no target, and which the second reading still shows |
| DaemonVme.MaskedForAReason | v120irqd/v120irqd.c:380-393 | a search turns an enabled line off if and only if it comes to a pass that, with the lines enabled at that time, finds it stuck |
| DaemonVme.SearchGoesOn | v120irqd/v120irqd.c:323-393 | a search over some readings and then more is the search over the first, gone on with from where it stands |
| DaemonVme.SearchEffect | v120irqd/v120irqd.c:321-393 | a whole search changes only its crate's lines and the messages; lines left plus passes that masked equal the lines at entry |
| DaemonVme.SearchSignals | v120irqd/v120irqd.c:331-334 | every message of a search is a concrete interrupt of its crate, to the owner of the first covering entry, with the payload asked for |
| DaemonVme.SearchDelivers | v120irqd/v120irqd.c:323-393 | the messages of a search are, in order, one signal for each pass whose interrupt an entry covers, and no others |
| DaemonVme.SearchEndsQuiet | v120irqd/v120irqd.c:323-325 | the search returns only on a reading that shows no enabled line asserted |
| DaemonVme.SearchIsNeverFatal | v120irqd/v120irqd.c:395-399 | with only IRQ1 to IRQ7 enabled no sequence of readings reaches the fatal exit |
| DaemonVme.FatalNeedsStrayLine | v120irqd/v120irqd.c:395-399 | some sequence of readings reaches the fatal exit if and only if a line outside IRQ1 to IRQ7 is enabled |
| DaemonVme.SearchTerminates | v120irqd/v120irqd.c:321-393 | with at most n acknowledgements and line drops the search is over after n + 7 passes, of which at most the lines enabled at entry (no more than 7) mask a line |
| DaemonInvariants.RecomputeIsExact | v120irqd/v120irqd.c:447-455 | the recomputed register of an open crate holds exactly its registered lines: narrowing to eight bits loses none |
| DaemonInvariants.RemoveFdRemovesOne | v120irqd/v120irqd.c:141-158 | removing a client's slot leaves exactly the other clients connected |
| DaemonInvariants.HangUpKeepsInv | v120irqd/v120irqd.c:489-498 | a hang-up leaves no entry of the client behind, and keeps every other owner connected, the table ordered and all enabled lines registered |
| DaemonInvariants.RequestKeepsInv | v120irqd/v120irqd.c:501-518 | a request, granted or refused, acknowledged or not, keeps the invariant |
| DaemonInvariants.ReleaseKeepsInv | v120irqd/v120irqd.c:520-534 | a release keeps the invariant |
| DaemonInvariants.FakeKeepsInv | v120irqd/v120irqd.c:536-552 | a faked interrupt keeps the invariant |
| DaemonInvariants.SearchKeepsInv | v120irqd/v120irqd.c:304-400 | an interrupt search keeps the invariant after any number of passes |
| DaemonInvariants.AcceptKeepsInv | v120irqd/v120irqd.c:405-419 | accepting a new descriptor keeps the invariant |
| DaemonInvariants.StepKeepsInv | v120irqd/v120irqd.c:810-821 | every step keeps the invariant: no fatal exit, descriptors distinct, owners connected, entries legal and none covered by an earlier one, enabled lines registered |
| DaemonInvariants.RunKeepsInv | v120irqd/v120irqd.c:810-821 | so does every run |
| DaemonHandlers.RequestStep | v120irqd/v120irqd.c:501-518 | a request is acknowledged if and only if it is legal, no entry covers it and there is a slot or memory; then it is appended and, unless the ACK fails, its lines are enabled on every open crate; else it is refused and nothing else changes |
| DaemonHandlers.ReleaseStep | v120irqd/v120irqd.c:520-534 | a release is acknowledged if and only if the first entry with its key is the client's, which goes; the lines are recomputed either way |
| DaemonHandlers.HangUpStep | v120irqd/v120irqd.c:489-498 | a hang-up takes the slot and exactly the entries of that client, sends nothing, and recomputes the lines |
| DaemonHandlers.FakeStep | v120irqd/v120irqd.c:536-552 | a faked interrupt is refused unless the setting allows it; else it is acknowledged and, unless that fails, delivered |
| DaemonHandlers.FakeIsDelivered | v120irqd/v120irqd.c:536-552 | delivered, it reaches the owner of the first covering entry as asked for, with that entry's payload |
| DaemonHandlers.StatusStep | v120irqd/v120irqd.c:554-557 | a status query gets one report with the process, the open crates, the number of clients and the number of entries |
| DaemonHandlers.OtherMessageStep | v120irqd/v120irqd.c:477-563 | a failed read and messages of other kinds have no effect |
| DaemonHandlers.AcceptStep | v120irqd/v120irqd.c:405-419 | an accepted socket gets the last slot, a failed accept changes nothing |
| DaemonRuns.RunKeepsFront | v120irqd/v120irqd.c:176-241 | crates and server socket keep their slots through every accept and hang-up |
| DaemonRuns.ReachableStatesAreSafe | v120irqd/v120irqd.c:428-455 | every state reachable from start-up satisfies the invariant and the layout, and each crate's enabled lines are registered and among IRQ1 to IRQ7 |
| DaemonRuns.DispatchPassIsSafe | v120irqd/v120irqd.c:810-821 | one walk over the poll list, which handlers change meanwhile, gives each handler a slot of its own section, handles at most the expected events, takes no fatal exit and keeps the layout |
| DaemonWalk.PassIsWalk | v120irqd/v120irqd.c:810-821 | the events of a pass are one for each ready slot met, in slot order, each the handler of the section its slot lies in at the time, with that slot's index and input, until enough are handled or none is left |
| DaemonWalk.PassWalks | v120irqd/v120irqd.c:810-821 | such a walk can happen and keeps invariant and layout |
| DaemonRuns.NewClientOwnsNothing | v120irqd/v120irqd.c:405-419 | a newly accepted client owns no entry, even if its descriptor number was used before |
| DaemonRuns.RequestAccounts | v120irqd/v120irqd.c:501-518 | after a request every registered line of an open crate is enabled or, if the acknowledgement failed, exempt, and never both |
| DaemonRuns.StepAccounts | v120irqd/v120irqd.c:477-563 | every step keeps that account, with masked lines exempt and recomputation clearing exemptions |
| DaemonRuns.RunAccounts | v120irqd/v120irqd.c:390-455 | every run keeps it |
| DaemonRuns.RegisteredMeansEnabledOrExempt | v120irqd/v120irqd.c:390-455 | in every reachable state a registered line of an open crate is enabled if and only if it is not exempt: masked, or its ACK lost, since the last recomputation |
| DaemonExemptions.StepExempts | v120irqd/v120irqd.c:304-563 | a step leaves a line exempt if and only if it masks it, loses the acknowledgement of a request for it while it is off, or does not undo an earlier exemption |
| DaemonExemptions.RegisteredIsOffForAReason | v120irqd/v120irqd.c:304-563 | in every reachable state a registered line of an open crate is off if and only if some event of the run masked it, or lost the acknowledgement of a request for it while it was off, with no later release, hang-up or acknowledged request for it |
| DaemonRuns.EnablesNamedCratesOnly | v120irqd/v120irqd.c:421-437 | a crate gets what the comment promises if and only if it is named, already had those lines, or no crate is named |
| DaemonRuns.RequestReachesOtherCrate | v120irqd/v120irqd.c:432 | a run of two steps in which a line is enabled on a crate for which nothing is registered |
| DaemonRuns.ReleaseRestoresExactness | v120irqd/v120irqd.c:489-534 | after every release and hang-up each open crate has exactly its registered lines enabled |
| DaemonDispatch.TableAfter | v120irqd/v120irqd.c:489-534 | how requests, releases and hang-ups change the table |
| DaemonDispatch.EntryStaysUnlessDropped | v120irqd/irq_vector_table.c:321-410 | an entry survives a step if and only if the step is not its owner hanging up or releasing that key |
| DaemonDispatch.RegistrationLasts | v120irqd/irq_vector_table.c:172-241 | over any run in which its owner neither releases it nor hangs up, an entry answers its own selector, whatever the other clients do |
| DaemonDispatch.GrantedRequestLasts | v120irqd/v120irqd.c:501-518 | a granted request is such an entry, with the requesting client and its payload |
| DaemonDelivery.CountedPassDeals | v120irqd/v120irqd.c:323-329 | every pass that a search counts deals with one line, the highest then enabled and asserted |
| DaemonDelivery.OwedByPass | v120irqd/v120irqd.c:331-335 | a pass owes one signal with its crate, its line and the vector it fetched to the owner of the first entry that wants them, and nothing when no entry does |
| DaemonDelivery.WantedIsTold | v120irqd/v120irqd.c:323-345 | the owner of the first entry that names a pass's crate and line, and any vector or the one fetched, is sent that interrupt with the payload asked for |
| DaemonDelivery.ToldIsWanted | v120irqd/v120irqd.c:323-345 | every message of a search is such a signal for one of its passes |
| DaemonDelivery.InterruptIsDelivered | v120irqd/v120irqd.c:304-400 | after any run in which its owner neither releases it nor hangs up, a registration is served: for each pass with a crate and line it names, and any vector or the one fetched, the owner of the first such entry is told, which is its own when it names nothing else or nothing else wants the interrupt |
| DaemonDispatch.DispatchIsStable | v120irqd/irq_vector_table.c:172-211 | a step changes the answer to a request if and only if it drops the answering entry, or nothing answered and it grants a selector covering the request |
| DaemonDispatch.StepSendsToClients | v120irqd/v120irqd.c:275-293 | every message sent in a step goes to a connected client, every signal to the owner of the answering entry; earlier messages stay |
| DaemonDispatch.RequestAnsweredOnce | v120irqd/v120irqd.c:501-518 | a request that the main loop reads gets one reply: ACK if and only if the table grew by exactly that entry, NAK if and only if it is unchanged |
| DaemonDispatch.ReleaseAnsweredOnce | v120irqd/v120irqd.c:520-534 | a release that the main loop reads gets one reply: ACK if and only if exactly one entry of that key and owner went, NAK if and only if nothing did |
| DaemonReplies.OthersAreReadAsReplies | libV120irqd/interrupts.c:178-201 | of the messages that a step reads, only the one that the main loop receives is not taken for a reply; any other is read right behind a signal to its own sender |
| DaemonReplies.AnsweredUnlessSwallowed | libV120irqd/interrupts.c:178-201 | a message that asks is answered at once if and only if it is the one that the main loop receives; otherwise a signal to its sender is the last thing sent before it was read |
| DaemonReplies.RunRepliesFollowSignals | libV120irqd/interrupts.c:178-201 | over every run, a message is taken for a reply only right behind a signal to its sender |
| DaemonReplies.SwallowedHasNoEffect | libV120irqd/interrupts.c:189-194 | a step that reads a message as a reply changes no entry, and if that message asks for something the signal fails with EBADMSG |
| DaemonReplies.StepConservesReplies | v120irqd/v120irqd.c:477-563 | one step: replies attempted to registrations, to fakes or to status queries are those consumed less those swallowed |
| DaemonReplies.RunRepliesInOrder | v120irqd/v120irqd.c:477-563 | over every run the replies stand, one for one and in order, right behind the asking messages of the main loop and go to their senders |
| DaemonReplies.RepliesAreConserved | v120irqd/v120irqd.c:477-563 | from start-up, replies attempted equal messages consumed less swallowed, for each of the three kinds, and there are no other replies |
| DaemonReplies.RequestIsSwallowed | libV120irqd/interrupts.c:189-194 | a run from start-up in which two requests are consumed, one is answered, and the line of the first ends up masked |
| DaemonCounts.StepConservesEntries | v120irqd/v120irqd.c:461-534 | one step: entries after, plus acknowledged releases and entries lost to a hang-up, equal entries before plus acknowledged requests |
| DaemonCounts.StepConservesClients | v120irqd/v120irqd.c:163-166 | one step: the client count follows accepts and hang-ups |
| DaemonCounts.RunConserves | v120irqd/v120irqd.c:461-534 | both balances hold over every run |
| DaemonPolls.MoveNeedsSpareSlot | v120irqd/v120irqd.c:149 | the slots that the removal reads are all allocated if and only if more slots are allocated than in use |
| DaemonPolls.RunSpare | v120irqd/v120irqd.c:119-158 | the slots allocated beyond those in use are the hang-ups since the last accept, over every run |
| DaemonPolls.MoveStaysInside | v120irqd/v120irqd.c:149 | in every reachable state the live slots are allocated, and the removal's move stays inside if and only if some client has hung up since the last accept |
| DaemonPolls.FirstHangUpReadsBeyond | v120irqd/v120irqd.c:149 | after one accept from start-up, the move for the hang-up reads a slot that is not allocated |
| DaemonCounts.ReportIsConserved | v120irqd/v120irqd.c:461-470 | in every reachable state the status report gives ACKed requests less ACKed releases and lost entries, accepts less hang-ups, and the process and crates of start-up |
| DaemonCounts.RequestRoundTrip | libV120irqd/interrupts.c:86-111 | when the daemon's reply reaches the client, its call returns 0 if and only if the entry was added, the selector then answers with it, and otherwise it returns EPERM |
| DaemonCounts.ReleaseRoundTrip | libV120irqd/interrupts.c:114-139 | a client's release returns 0 if and only if its entry went, after which no entry has that key; otherwise EPERM |
| PollLists.PollList.AppendFd | v120irqd/v120irqd.c:119-133 | the array is reallocated to exactly the new length, with the old live slots in front and the new one last |
| PollLists.PollList.Collapse | v120irqd/v120irqd.c:148-150 | the shift in place deletes exactly the slot, keeps the others in order, and leaves the allocation as it was |
| Daemons.ConfigureVmeEndpoints | v120irqd/v120irqd.c:176-210 | the loop keeps exactly the crates whose handle and interrupt descriptor open, in ascending order, each with its slot |
| Daemons.Daemon.constructor | v120irqd/v120irqd.c:176-241 | the usable crates, then the server; the fatal exit exactly when the server socket fails; an initial state when descriptors are distinct and all registers read zero |
| Daemons.Daemon.AppendFd | v120irqd/v120irqd.c:119-133 | one more live slot at the end and an allocation of exactly that length; the fatal exit exactly when the server slot is missing |
| Daemons.Daemon.RemoveFd | v120irqd/v120irqd.c:141-158 | the live slots are those before and those behind the index, and exactly that client is gone; the fatal exit exactly for an index outside the client section |
| Daemons.Daemon.NotifyIrq | v120irqd/v120irqd.c:275-293 | signals the answering entry's owner with its payload and returns the handshake's code; EINVAL and no message when nothing answers |
| Daemons.Daemon.EnableInterrupts | v120irqd/v120irqd.c:428-437 | the register loop adds the request's lines to every open crate when any crate bit is set |
| Daemons.Daemon.DisableUnusedInterrupts | v120irqd/v120irqd.c:447-455 | the register loop stores each crate's registered lines |
| Daemons.Daemon.BuildStatusReport | v120irqd/v120irqd.c:461-470 | the process, the mask of open crates, the number of clients and the number of live entries |
| Daemons.Daemon.HighestAsserted | v120irqd/v120irqd.c:327-329 | the bit-testing loop finds the highest asserted line |
| Daemons.Daemon.SearchOnce | v120irqd/v120irqd.c:323-393 | one pass on the register masks is the pass on sets of lines |
| Daemons.Daemon.ProcessVme | v120irqd/v120irqd.c:304-400 | the search loop with its cached mask is the search of the state machine, for every sequence of readings |
| Daemons.Daemon.ProcessNewClient | v120irqd/v120irqd.c:405-419 | a failed accept changes nothing; a fresh descriptor becomes the one new client, and the invariant stays |
| Daemons.Daemon.ProcessClient | v120irqd/v120irqd.c:477-563 | every message branch and its error paths are the transition of the state machine |
| Daemons.Daemon.DispatchSlot | v120irqd/v120irqd.c:813-816 | a crate's slot is searched, the server's slot gains exactly the accepted client, a client's slot has its message handled |
| Daemons.Daemon.DispatchPass | v120irqd/v120irqd.c:810-821 | the walk over the changing poll list calls, for each ready slot met and in slot order, the handler of its section, and keeps invariant and layout |
| Logarithms.Log2IsFloor | include/v120irqd.h:114-127 | the logarithm is the floor, and the index of the highest bit set |
| Logarithms.HighBitsTest | libV120irqd/interrupts.c:73-77 | the mask test of a halving is non-zero exactly for numbers that have more than the low half of the bits |
| Logarithms.Halve | libV120irqd/interrupts.c:73-77 | one halving keeps the sum of the result so far and the logarithm of the rest |
| Logarithms.ILog2F | libV120irqd/interrupts.c:69-79 | -1 for zero, else the floor of the logarithm, for all 32-bit numbers |
| Scans.RunsAreAllRuns | v120/scan.c:21-45 | the runs collected word by word are, in order and once each, exactly the maximal runs of acknowledged words |
| Scans.EndedRunsHaveASuccessor | v120/scan.c:36-40 | the runs printed are exactly the maximal runs that an unacknowledged word follows |
| Scans.AckedBits | v120/scan.c:8-11 | a word is acknowledged if and only if bit 0 of the register is set and bits 1 to 4 are clear |
| Scans.LostIsAllOnes | v120/scan.c:30-35 | lost communication is the reading with all 32 bits set |
| Scans.RunScan | v120/scan.c:13-48 | -1 if and only if some reading has all bits set; else the number of maximal runs of readings with bit 0 set and bits 1 to 4 clear; prints, in order and as byte offsets, exactly those that a further reading ends |
| VmePages.AgreeAfterMap | libV120/V120.c:150-165 | listing a mapping that overlaps no other keeps the list and the live mappings in one-to-one agreement |
| VmePages.AgreeAfterUnmap | libV120/V120.c:178-211 | unmapping a listed span and delisting it keeps that agreement |
| VmePages.DescriptorTranslates | libV120/V120.c:376-387 | a descriptor with at most 14 bits of flags translates an offset to the page's own address plus the offset |
| VmePages.DescriptorKeepsFlags | libV120/V120.c:376-387 | and keeps those flags intact below the page number |
| VmePages.PagesOf | libV120/V120.c:896-899 | the page count is the least that covers the bytes of an unaligned region |
| VmePages.PagesDoNotOverlap | libV120/V120.c:900-924 | regions placed one after the other share no page |
| VmePages.ByteIsExact | libV120/V120.c:896-920 | each byte of a region, aligned or not, is reached at its own VME address through mapping and descriptor |
| VmePages.ReachesOnce | libV120/V120.c:346-366 | an address in the process reaches one VME address only |
| VmePages.PlaceNext | libV120/V120.c:888-926 | placing the next region leaves the mappings and descriptors of the earlier ones intact |
| VmePages.TakenPages | libV120/V120.c:886-926 | the pages of the regions are, without a gap, the pages from the start to the one returned |
| VmePages.WindowIsFull | libV120/V120.c:871-875 | the result of an allocation is 8192 if and only if every page from the start on is taken, and is never 0 |
| VmePages.LastPageFillsWindow | libV120/V120.c:927 | one byte placed from page 8191 on takes every page, and the result is 8192 |
| VmePages.SparedStep | libV120/V120.c:890-926 | placing a region behind those before it loses no mapping and changes no descriptor but those of its own pages |
| VmeHandles.Handle.AddToMmList | libV120/V120.c:150-165 | a new node heads the list, the others follow unchanged; ENOMEM and no change without memory |
| VmeHandles.Handle.AllocPages | libV120/V120.c:312-366 | succeeds if and only if the arguments are in range and the system grants device, address and node; then the mapping is live and listed, else nothing is mapped, a mapping made in vain is unmapped again, and errno says which of the three failed |
| VmeHandles.Handle.Unlink | libV120/V120.c:183-206 | the pointer walk takes exactly the given node out and keeps the others in order, or finds it is not listed |
| VmeHandles.Handle.RemoveFromMmList | libV120/V120.c:178-211 | that node's mapping, and no other, is unmapped once; -1 and no change when it is not listed |
| VmeHandles.Handle.CleanMemList | libV120/V120.c:221-234 | terminates with the list empty and nothing mapped, every mapping unmapped exactly once, in list order |
| VmeHandles.Handle.GetVme | libV120/V120.c:732-751 | maps the pages between the bounds, whichever comes first; fails within the window only when the system refuses |
| VmeHandles.Handle.ConfigurePd | libV120/V120.c:376-387 | every other page keeps its descriptor; for flags of 14 bits this page takes each offset to that offset in the page that holds the base, with those flags |
| VmeHandles.Handle.ConfigurePdRange | libV120/V120.c:400-412 | writes the descriptors of a range with consecutive page addresses and keeps all others |
| VmeHandles.Handle.AddVmeRegion | libV120/V120.c:805-811 | the region heads the list, the others follow in order |
| VmeHandles.CountedPages | libV120/V120.c:896-901 | for a region that fits, the unsigned 32-bit arithmetic computes its page count and last page without wrapping |
| VmeHandles.Handle.MapRegion | libV120/V120.c:903-920 | the region's pages are mapped, its pointer is that of its first byte, and its descriptors are written even if the mapping fails, which it does within the window only when the system refuses |
| VmeHandles.Handle.PlaceRegion | libV120/V120.c:890-923 | one region: mapping, descriptors and fields as placed on those pages; fails only when the system refuses or the pages run out |
| VmeHandles.Handle.PlaceNextRegion | libV120/V120.c:888-926 | one turn of the loop carries the placement on by one region |
| VmeHandles.Handle.AllocateVme | libV120/V120.c:877-928 | on success the regions lie on consecutive pages within the window, their fields say where, every byte is reached exactly, descriptors outside those pages stay, and the result is the start plus all page counts, 8192 exactly when the window is full; no earlier mapping is ever lost; it fails only for a start outside the window, for want of pages, or because the system refused the region after the last one mapped |

## Left out

- VmeHandles.Handle.AllocateVme: nothing is claimed about addresses for a region of length zero, one whose length wraps around 32 bits when rounded up, or flags at or above bit 14; `v120_uapi.h`, which defines the flags, is not part of this model.
- VmeHandles.Handle.AllocateVme: the region list must be non-empty and acyclic, because for an empty list the source returns an uninitialised variable.
- VmeHandles.Handle.AllocateVme: after a failure only the agreement of list and mappings is claimed, since descriptors are written before the mapping is known to have succeeded; descriptors beyond the last page become further keys of a map.
- VmeHandles.Handle.ConfigurePdRange: the product of page index and page size is not limited to 32 bits; it stays within them for every region that fits in the window.
- Scans.RunScan: printed offsets are unbounded numbers rather than 32-bit ones.
- Daemons.Daemon.AppendFd: memory for the poll list never runs out.
- PollLists.PollList.AppendFd: the same; the source has counted the new slot before it finds that there is no memory for it.
- PollLists.PollList.Collapse: moves the live slots only; the source moves one slot more, whose value ends up behind the live slots.
- Daemons.Daemon.constructor: options, signals and the control of a running daemon at start-up are not modelled, only the opening of crates and of the server socket.
- DaemonVme.SearchTerminates: a client or a card that goes on forever keeps the search going, so the bound depends on the number of acknowledgements and line drops.
- Exits with an error are a flag in the state; nothing of the daemon happens afterwards.
- What the environment does is part of each event: bytes received, send failures, register readings, whether memory is available. It is taken to accept only descriptors that are non-zero and not open already, to have the enable registers at zero at start-up and leave them alone, and never to map an address range that is in use.
- The event flags of a slot are one boolean, arbitrary for a slot that has just been added, as the source leaves them unset.
- Sockets, polling, signals, becoming a background process, logging and option parsing.
- Messages that arrive in part; the receive buffer is whole messages only.
- The mutex of the vector table: it is compiled out by default and held for one call at a time.
- `free_all_interrupts`, which only tests use.
- The one-word selector tests on machines that are not little-endian.
- That clients answer: the daemon waits for a reply by design.
- That every entry receives some interrupt: several earlier entries together can shadow one.
- Which crates have unregistered lines enabled between a request and the next release: more than needed, see `EnablesNamedCratesOnly`.
- `v120_delete_vme_list`, `v120_configure_page`, opening and closing the device files.
- DMA, register printing, monitors, flash and reset commands: register access with little logic.
- The text interface, its file parser, the examples and the test framework.
