# Verified model of Agon EMOS

EMOS is firmware for a small single-core eZ80 machine. This project models its hardest state in Dafny and proves what the
code is for: a heap allocator that overlays two linked lists on one array, a block protocol over a parallel port shared
with a UART, the owner of that port under nested interrupts, the system-variable list, the keyboard receiver, and the
admission of a utility at the idle prompt.

Code that changes state step by step is a class whose fields are the C variables, with methods proved against functions
and predicates on values; what those functions and predicates promise is proved as lemmas beside them.

| files | what they model |
|---|---|
| `UmmLayout`, `UmmListOps`, `UmmFacts`, `UmmHeap` | the allocator: layout invariant, list surgery on values, conservation, the allocator in place |
| `Pmatch`, `SysVars` | the matcher, its comparison, and the linked list searched with it |
| `ParallelWire`, `ParallelSession`, `SessionProtocol` | control records, both ends of the session handshake, the handshake over a bad channel |
| `ConsoleExchange` | the shared request record, its reply filter, negotiation and block admission |
| `Handover`, `Coordinator` | the ownership sequencer, deadlines, the boot connection and the block transaction |
| `ParallelEngine`, `ParallelOwner` | the record engine against a receiver of the wire; locks, epochs and leases under nested interrupts |
| `ReturnPackets`, `ExExt` | what a publication of return packets does; the byte stream: queue out, buffer in, interrupts between all steps |
| `KeyboardFraming`, `Keyboard` | packet framing, held keys, the receiver |
| `Checksum`, `Admission` | the CRC-32 and the admission exchange of the idle prompt |

## How the machine is modelled

- **Memory** is an array of 4-byte words, each a pair of 16-bit halves. Block `b` is a header word and a body word; the
  body holds free-list links or payload. The heap has 3 to 32767 blocks and callers pass live pointers, NULL, or pointers
  outside the heap.
- **Interrupts.** A call that interrupts another runs to completion between two of its steps. In `ParallelOwner` and
  `ExExt` a method `Interrupt(depth)` stands at those places and runs any number of calls of any kind, which are
  themselves interrupted down to the remaining depth; the theorems hold for every depth. Regions under the interrupt lock
  have no such place. A clause under `depth == 0` says what a call does that is not interrupted. In `ConsoleExchange`,
  `Admission`, `Coordinator` and `ParallelEngine` the interrupt handlers that can reach the state are modelled as methods
  called with arbitrary input between the steps.
- **Clocks, pins, the peer, and assembly leaves** answer arbitrarily, within the contract their callers rely on. READY is a
  fresh arbitrary level at every sample.
- **Failures.** Where the environment can make a step fail, a ghost result or a ghost history names what was met (a refused
  reservation, an exchange without an answer, a line error, time or polls used up), and the contract says that the call
  fails for such a cause only, and always when a fault that the code looks for is pending.
- **Time.** Deadlines are modelled as the code computes them where termination is proved (`Handover.Poll`,
  `ParallelEngine.Engine.WaitReady`, `ConsoleExchange.Console.WaitReply`).
- **Ghost histories** (bytes accepted and sent, events published, records on the wire, grants made) carry the properties
  that speak of whole runs. Class invariants relate them to the fields: the constructors establish them for the reset state
  and every method keeps them, so they hold after every sequence of calls.

## Findings

- A publication of return packets is meant to leave the packet parser idle and to deliver at most one key event. Whatever
  the return buffer brings, it does so if and only if no two releases are in store that a fault or the answer to a prepared
  poll could set off, and the parser is idle when it begins or wants but the last byte of a key
  (`ReturnPackets.PublishesCleanlyExactly`). From an idle parser it does so in every publication without a fault if and only
  if no such answer is due (`ReturnPackets.PublishesWithoutFaultExactly`). `ReturnPackets.AnswerReleases` and
  `ReturnPackets.MalformedReleases` give the packets that release every held key at once.
- A key packet in the return buffer arrives if and only if the parser is idle (`ReturnPackets.KeyArrivesExactly`), and a
  tick may publish while a reply on the UART is half received. `ExExt.Stream.LoseKey` loses a key in this way at any stream
  at rest, a key that would have arrived before the reply began.
- Agreement of the handshake is about the past. The peer is still in the session if and only if no prepare record that it
  stages, and no reset, has come since it entered (`SessionProtocol.StaysExactly`, `SessionProtocol.TogetherExactly`). A
  duplicate prepare record is enough to take it out, with nothing reused (`SessionProtocol.DuplicatePrepareDisplacesPeer`).
- The shared request record is sent byte by byte while a reply may already replace it, and then the rest of what goes out is
  that reply. Replies of earlier exchanges that are still under way leave a request as it is, whichever of them comes and at
  whatever byte, if and only if its filter lets none of them in (`ConsoleExchange.HarmlessExactly`). For a prepare, a commit
  and an offer that is so as long as transactions are not reused and numbers are used up
  (`ConsoleExchange.OtherTransactionsAreHarmless`, `ConsoleExchange.AnswersAreHarmless`,
  `ConsoleExchange.OutdatedAreHarmless`); for a repeated poll it never is
  (`ConsoleExchange.PollRepliesAreNot`, `ConsoleExchange.DuplicatePollReply`). A prepare or a commit that was overwritten is
  refused by the peer or taken as it was meant (`SessionProtocol.OverwrittenPrepare`, `SessionProtocol.OverwrittenCommit`).
- Repeated searches with a pattern visit every match exactly when no plain character follows a `#` before the next `*` or
  the end of the pattern, apart from character 127 that nothing exceeds (`SysVarOrder.WalksCompleteExactly`). Patterns
  without `#` always qualify.
- A new variable is created, with success reported, even when there was no memory for its text; it then has none
  (`SysVars.SystemVariables.CreateOrUpdateSystemVariable`).

## Model

| member | source | states |
|---|---|---|
| UmmFacts.BlocksFit | src_umm_malloc/umm_malloc.c:96-167 | The rounding is exact: a request of n > 0 bytes needs at most k blocks if and only if n <= 8k - 4, for every k a heap can hold. |
| UmmFacts.LargestIsMaximum | src_umm_malloc/umm_malloc.c:790-815 | The largest free size is that of some free block and is exceeded by none. |
| UmmFacts.FreePlusLive | src_umm_malloc/umm_malloc.c:178-367 | In a well-formed heap free blocks, live blocks and the two sentinels add up to the number of blocks: none is lost or counted twice. |
| UmmFacts.AllFreed | src_umm_malloc/umm_malloc.c:321-367 | A well-formed heap with nothing live is the one free block of initialisation, in every link. |
| UmmFacts.InitialIsWf | src_umm_malloc/umm_malloc.c:264-319 | The initial contents are well formed and nothing is live. |
| UmmFacts.PayloadWrite | src_umm_malloc/umm_malloc.c:553-738 | Writing anywhere inside a live payload keeps the heap well formed and every other live block unchanged. |
| UmmListOps.WfDisconnect | src_umm_malloc/umm_malloc.c:192-206 | Unlinking a free block leaves both lists intact, drops exactly that block from the free list and clears its flag. |
| UmmListOps.WfJoin | src_umm_malloc/umm_malloc.c:209-261 | Joining a block with its successor keeps the partition and the free ring. |
| UmmListOps.WfPushFree | src_umm_malloc/umm_malloc.c:345-366 | A live block with no free neighbour, pushed at the head, keeps the heap well formed. |
| UmmListOps.WfSplit | src_umm_malloc/umm_malloc.c:178-190 | Splitting a live block gives two adjacent live blocks and disturbs nothing else. |
| UmmListOps.WfCarve | src_umm_malloc/umm_malloc.c:470-505 | Taking the start of a free block leaves its rest in the same place of the free list. |
| UmmHeap.Heap.constructor | src_umm_malloc/umm_malloc.c:264-319 | Initialisation establishes the invariant with one free block. |
| UmmHeap.Heap.SplitBlock | src_umm_malloc/umm_malloc.c:178-190 | Four link writes in place give exactly the split of the old memory. |
| UmmHeap.Heap.DisconnectFromFreeList | src_umm_malloc/umm_malloc.c:192-206 | Three writes in place give exactly the unlinked memory. |
| UmmHeap.Heap.AssimilateUp | src_umm_malloc/umm_malloc.c:209-236 | A live block absorbs a free successor, or nothing changes; no other live block is touched. |
| UmmHeap.Heap.AssimilateDown | src_umm_malloc/umm_malloc.c:239-261 | The previous block absorbs this one, with the flag asked for. |
| UmmHeap.Heap.FreeCore | src_umm_malloc/umm_malloc.c:321-367 | Freeing a live block keeps the heap well formed, makes that block and no other not live, and leaves every other payload as it was. |
| UmmHeap.Heap.Free | src_umm_malloc/umm_malloc.c:371-403 | NULL and pointers outside the heap change nothing; a live pointer is freed. |
| UmmHeap.Heap.ScanFreeList | src_umm_malloc/umm_malloc.c:418-458 | The scan ends at a block of minimum sufficient size, the first such in the list, or at the head with a size too small when none fits. |
| UmmHeap.Heap.MallocCore | src_umm_malloc/umm_malloc.c:407-514 | Fails exactly when no free block has enough blocks, and then changes nothing; otherwise the first best fit of the free list becomes live with exactly the size asked for. |
| UmmHeap.Heap.Malloc | src_umm_malloc/umm_malloc.c:518-547 | The same through the entry point, with size 0 refused. |
| UmmHeap.Heap.HeapStats | src_umm_malloc/umm_malloc.c:783-815 | Reports the free total, the used total (live blocks and the two sentinels) and the capacity of the largest free block. |
| UmmHeap.GrantedUpToLargestFree | src_umm_malloc/umm_malloc.c:407-514 | A request of n > 0 bytes can be granted if and only if n is at most the reported largest free size. |
| UmmHeap.TakenCapacity | src_umm_malloc/umm_malloc.c:96-167 | A block handed out has room for the bytes requested. |
| UmmHeap.Heap.Neighbours | src_umm_malloc/umm_malloc.c:622-640 | The sizes of a live block and of its free neighbours, 0 for a neighbour in use. |
| UmmHeap.Heap.TakePrevious | src_umm_malloc/umm_malloc.c:691-708 | Merging into the free block before and sliding the payload down keeps every payload word, overlapping or not. |
| UmmHeap.Heap.Trim | src_umm_malloc/umm_malloc.c:725-734 | The surplus of a block is split off and freed; the kept part and all other blocks stay as they were. |
| UmmHeap.Heap.Relocate | src_umm_malloc/umm_malloc.c:711-723 | Allocates, copies and frees; when nothing fits, memory is unchanged. |
| UmmHeap.Heap.Fit | src_umm_malloc/umm_malloc.c:622-708 | Room with both neighbours decides: with enough, the one of the four ways in place that the sizes call for gives a resized block where that way ends; without, nothing has changed. |
| UmmHeap.Heap.ReallocCore | src_umm_malloc/umm_malloc.c:604-738 | All six strategies give a resized block, by the way and at the place that the sizes with the neighbours call for; it fails exactly when the block with its free neighbours is too small and no free block fits, and then changes nothing. |
| UmmHeap.Heap.Realloc | src_umm_malloc/umm_malloc.c:553-739 | NULL allocates, size 0 frees, anything else resizes. |
| UmmHeap.ResizedBytes | src_umm_malloc/umm_malloc.c:604-738 | After a resize by any strategy the first min(old capacity, new size) payload bytes are the old ones and the block has room for the new size. |
| UmmHeap.Heap.FreeAll | src_umm_malloc/umm_malloc.c:321-403 | Freeing every live pointer, in whatever order they are listed, ends in one free block. |
| Pmatch.MatchIsGlob | src/strings.c:126-160 | For every combination of flags the matcher returns 0 exactly on the strings that can be cut into pieces fitting the pattern's tokens. |
| Pmatch.SameLetter | src/strings.c:126-160 | Two characters count as the same exactly if they are equal or, by their codes, one is a letter from A to Z and the other is 32 above it. |
| Pmatch.PlainMatch | src/strings.c:126-160 | A plain label matches exactly the texts equal to it but for the case of letters, by `Pmatch.SameLetter`. |
| Pmatch.PositiveIsBelow | src/strings.c:150-160 | The sign of a failed match: positive exactly when the pattern's plain start is below the string at their first difference. |
| Pmatch.PlainDifference | src/strings.c:150-160 | The value of a failed comparison with a plain label: the difference of the first characters that differ, the end of the string counting as 0, or -1 when only the label has ended. |
| Pmatch.NotAnOrder | src/strings.c:150-160 | The comparison is no order: of a label and its proper extension each counts as lower. |
| SysVarOrder.LookupComplete | src/mos_sysvars.c:25-57 | In a searchable list of labels, a search stops on a match if and only if the label is there. |
| SysVarOrder.LookupFinds | src/mos_sysvars.c:25-57 | If the label is there, the search stops at that entry and at no earlier one. |
| SysVarOrder.InsertKeepsSearchable | src/mos_sysvars.c:79-106 | Inserting a new label where its search stopped keeps the list searchable and its labels distinct. |
| SysVarOrder.DeleteKeepsSearchable | src/mos_sysvars.c:147-161 | So does removing an entry. |
| SysVarOrder.WalkIsComplete | src/mos_sysvars.c:36-50 | With a pattern whose `#`s are not followed by plain characters, no search stops short of a match. |
| SysVarOrder.MissedPair | src/mos_sysvars.c:36-50 | For any other pattern there are two labels, in order, of which the first hides the matching second. |
| SysVarOrder.WalksCompleteExactly | src/mos_sysvars.c:36-50 | A pattern can be relied on to visit every match in every list if and only if it has that shape. |
| SysVarOrder.NoHashIsFine | src/strings.c:126-160 | Patterns without `#` have it. |
| SysVars.SystemVariables.GetSystemVariable | src/mos_sysvars.c:25-57 | The loop over the linked list finds the entry where the search stops and reports match, or the place to insert after. |
| SysVars.SystemVariables.InsertSystemVariable | src/mos_sysvars.c:79-89 | Relinking inserts the node after the given one, or at the head; nothing else changes. |
| SysVars.SystemVariables.FindParentSystemVariable | src/mos_sysvars.c:163-176 | The predecessor in the list, or none. |
| SysVars.SystemVariables.RemoveSystemVariable | src/mos_sysvars.c:147-161 | A listed variable is taken out, which is all that the callers ask for; for any other the list would begin with what follows it; the invariant is kept, and what remains keeps name and value. |
| SysVars.SystemVariables.UpdateSystemVariable | src/mos_sysvars.c:110-145 | Kind and value after an update, for code variables, owned texts, and lack of memory. |
| SysVars.SystemVariables.CreateOrUpdateSystemVariable | src/mos_sysvars.c:91-108 | A plain label is updated where it is, or added where its search stopped, or refused for lack of memory for node or label; without memory for the text alone the variable is added without it and success reported; nothing else changes and lookup stays complete. |
| SysVars.SystemVariables.Lookup | src/mos_sysvars.c:25-57 | Success if and only if an entry with the same text, but for the case of letters by their codes, is in the list, and then with that entry. |
| SysVars.SystemVariables.Show | src/mos.c:1541-1571 | The SHOW loop visits matching entries only, each once and in order, and all of them for the patterns on which walks are complete. |
| ParallelWire.MadeOfferIsValid | src/emos_exext.c:69-76 | Every offer made for a live session whose numbers are not used up, with 1 to 4096 bytes, passes the validity check. |
| ParallelWire.ValidOfferMeans | src/emos_parallel_wire.h:31-42 | A valid offer carries the session's nonce, the next number, never 0, and a length of 1 to 4096. |
| ParallelWire.ValidOfferExactly | src/emos_parallel_wire.h:31-42 | The check on an offer, field by field: exactly a session that has a nonce, that nonce, the next number, a direction of 0 or 1 and a length of 1 to 4096. |
| ParallelSession.Session.Invalidate | src/emos_parallel_session.h:28-31 | The phase and number are cleared; the nonce is kept. |
| ParallelSession.Session.Begin | src/emos_parallel_session.h:36-48 | Begins exactly from idle or active with a nonzero transaction and writes exactly the prepare record. |
| ParallelSession.Session.Accept | src/emos_parallel_session.h:49-63 | Accepts exactly the two replies of the protocol, also when reply and commit are the same buffer. |
| ParallelSession.Session.Peer | src/emos_parallel_session.h:64-81 | The peer stages or activates exactly on the two requests and answers with its nonce, also in place. |
| SessionProtocol.Agreement | src/emos_parallel_session.h:36-81 | After every sequence of sends, overwritten sends, losses, delays, duplicates and reorderings: whenever the initiator is active, the peer has entered that transaction with that nonce. |
| SessionProtocol.OneForOne | src/emos_parallel_session.h:36-81 | If transactions and nonces are not reused, each initiator activation is exactly one peer activation and no two share one. |
| SessionProtocol.HandshakeCompletes | src/emos_parallel_session.h:36-81 | Delivered in order, the handshake makes both ends active with the same identity. |
| SessionProtocol.DuplicatePrepareDisplacesPeer | src/emos_parallel_session.h:64-81 | A run, without reuse, in which a duplicate prepare takes the peer out of an active session. |
| SessionProtocol.StaysExactly | src/emos_parallel_session.h:64-81 | After every run: the peer is in a session exactly if it entered it at some event and has staged no prepare record and not been reset since. |
| SessionProtocol.TogetherExactly | src/emos_parallel_session.h:36-81 | While the initiator is active the peer has entered the same session, and is still in it under exactly that condition. |
| SessionProtocol.OverwrittenPrepare | src/emos_parallel_session.h:64-81 | A prepare that a reply ran into is never activated on, and is staged exactly if it would have been as meant and its first 14 bytes are the prepare's. |
| SessionProtocol.OverwrittenCommit | src/emos_parallel_session.h:64-81 | A commit that a reply ran into is never staged, and is activated on exactly if it would have been as meant and its operation byte had gone. |
| ConsoleExchange.HarmlessExactly | src/emos_console.c:58-71 | For any set of replies that may still come: none of them, at whatever byte, changes what goes out if and only if the filter lets none of them in. |
| ConsoleExchange.OutdatedAreHarmless | src/emos_console.c:98-101 | Acknowledgements of other sessions and of used numbers leave the next offer alone; admitting it adds its own acknowledgement to them, so this holds again for the offer after it. |
| ConsoleExchange.OtherTransactionsAreHarmless | src/emos_console.c:102-109 | Replies to other transactions leave a prepare alone. |
| ConsoleExchange.AnswersAreHarmless | src/emos_console.c:102-109 | They leave the commit alone that follows, whatever answers to the prepare are still under way. |
| ConsoleExchange.PollRepliesAreNot | src/emos_console.c:90-97 | A reply that answered one poll is let in by every other with the same nonce and number, so the other can go out changed. |
| ConsoleExchange.OfferSentAsAsked | src/emos_console.c:58-71 | For an offer: exactly if the operation byte had gone, and each of the two last bytes had gone or is 0 in the reply. |
| ConsoleExchange.DuplicatePollReply | src/emos_console.c:58-71 | A poll and a second copy of an earlier reply that the filter lets in and that goes out in place of the poll. |
| ConsoleExchange.Console.Packet | src/emos_console.c:84-115 | The first reply that matches the awaited operation and the record sent replaces that record; every other packet changes nothing. |
| ConsoleExchange.Console.SendRequest | src/emos_console.c:58-71 | The bytes that go out are the record up to where a reply was let in, and that reply from there on. |
| ConsoleExchange.Console.WaitReply | src/emos_console.c:42-52 | The wait ends for every clock, succeeds only with a reply let in, and fails only by a fault, with the time up or with the polls used up. |
| ConsoleExchange.Console.Exchange | src/emos_console.c:58-71 | Success means one matching reply, now in the record; what went out is the prefix and the record asked for up to the byte at which the reply came, and then the reply; it fails only when the record could not be sent or no reply came in time. |
| ConsoleExchange.Console.Negotiate | src/emos_console.c:241-254 | Refused without any change, or an active session resting on exactly a prepare reply and a commit reply, or no session and a cancelled handover, for one of the stated reasons; at most two exchanges, with the bytes each of them sent, which are the two records themselves if nothing else under way carries the transaction. |
| ConsoleExchange.Console.AgreedIdentity | src/emos_parallel_session.h:49-63 | Both replies of a negotiated session carry its transaction and its nonce, which is nonzero and not the previous one; its number is 0. |
| ConsoleExchange.Console.Admit | src/emos_console.c:204-231 | Exactly an acknowledgement that repeats a valid offer starts the handover and uses its number up. |
| ConsoleExchange.OfferMatchesExactly | src/emos_console.c:98-101 | For an offer the filter lets in exactly its acknowledgement, whatever the two last bytes, so a match is enough for admission. |
| ConsoleExchange.PrepareMatchesExactly | src/emos_console.c:102-109 | For a prepare exactly the replies with its transaction, a nonce that is not zero and protocol 3. |
| ConsoleExchange.CommitMatchesExactly | src/emos_console.c:102-109 | For a commit exactly the reply that repeats transaction and nonce. |
| ConsoleExchange.StreamMatchesExactly | src/emos_console.c:90-97 | For a stream operation exactly the replies with the nonce and number of the session and at most 4096 bytes pending. |
| ConsoleExchange.Console.StreamControl | src/emos_console.c:271-285 | The answer to a stream operation comes with the identity of this very session, and what it reports pending is returned; it fails before the gates without a change, and past them only when no reply came. |
| ConsoleExchange.Console.OfferBlock | src/emos_console.c:261-269 | A block is admitted with its acknowledgement in hand, or the session is gone and the handover cancelled, and that only when no reply came or the reservation was lost; before the gates nothing changes. The bytes sent are known exactly; if all that is under way is outdated they are the offer, and all is outdated again for the next one. |
| ConsoleExchange.NumberUsedUp | src/emos_parallel_wire.h:31-42 | An admitted number is never valid again in its session. |
| Handover.Sequencer.Step | src/emos_parallel_handover.c:20-90 | One phase at a time, in one order, each on its evidence; the action follows from the phase, and the control lines always show the phase; lost READY at rest cancels. |
| Handover.PollProgress | src/emos_keyboard.c:207-215 | Every successful poll moves the deadline on: elapsed time or stall budget. |
| Handover.DeadlineExactly | src/emos_keyboard.c:203-215 | Whatever the ticks, and though the clock is a byte that wraps: a deadline lasts over a run of polls exactly as long as fewer than 600 ticks have gone by and the clock has not stood still for 262144 polls on end. |
| PortScript.ReachedMeansInOrder | src/emos_parallel_coordinator.c:35-86 | Having reached k steps of a script means k instants of the run, in order, at which they happened. |
| PortScript.CutShortRunsPayloadOnce | src/emos_parallel_coordinator.c:50-56 | However a transaction ends, its payload was run at most once. |
| Coordinator.Link.UartAllowed | src/emos_parallel_startup.c:32-42 | During a block UART1 is allowed in one phase only; otherwise by the grant, which one READY low while live takes away. |
| Coordinator.Link.Tick | src/emos_parallel_startup.c:43-55 | The interrupt closes and fences a link without a grant, exactly when UART1 is active and no block runs, and leaves a block or a connection in progress alone. |
| Coordinator.Link.BootPoll | src/emos_parallel_boot.c:23-37 | One poll of the release cycle: nothing in the phases of a block; in the others the phase moves on exactly its evidence, live only after the peer's release, restore only at the released port, and the lines show the phase. |
| Coordinator.Link.Connect | src/emos_parallel_startup.c:56-93 | The live grant is given only after READY high, low, the fence, released pads, high, low, the opened UART, high, in that order; otherwise the port is fenced without a grant, and that only with the time up, UART1 refused, or pads that do not let go; it ends for every clock and pin behaviour. |
| Coordinator.Link.BlockEnd | src/emos_parallel_startup.c:110-116 | Only a completed return ends without the physical fence. |
| Coordinator.Link.Park | src/emos_keyboard.c:382-391 | UART1 lets go of the port exactly when it is reserved, active, without fault and both directions are quiet; otherwise nothing changes but the fault that a line error asks for. |
| Coordinator.Link.Unpark | src/uart.c:305-318 | During a block UART1 comes back only in the return phase with released pads. |
| Coordinator.Link.Adapter | src/emos_parallel_coordinator.c:36-64 | In every phase the adapter reports exactly the evidence it has; the payload runs with the direction and length offered, in the block phase and there only, while UART1 is off the port. |
| Coordinator.Link.Transact | src/emos_parallel_coordinator.c:32-86 | The loop terminates by phase rank, elapsed time and stall budget, for every behaviour of clock, READY and interrupts; it succeeds only with the whole script behind it and the payload run once, and a fault pending at the beginning of a turn, like a deadline used up or an adapter that is stuck, ends it without success. |
| Coordinator.Link.Finish | src/emos_parallel_coordinator.c:71-81 | A late interrupt can still refuse the release, by having taken UART1 away, and then the link is already fenced. |
| Coordinator.AdmittedIsAdmissible | src/emos_parallel_coordinator.c:17-31 | An offer that was admitted and fits the buffer passes the first checks of the transaction. |
| Coordinator.Link.Coordinate | src/emos_parallel_coordinator.c:17-90 | It begins exactly on a live grant at rest with the interrupts on and an admissible offer; refusal changes nothing; it succeeds exactly if no cause to give up is met, a fault in any turn being one; success means the twelve steps in order, no other act, the payload that was offered, once, and the reservation given back; any later failure ends the session, fences the port and keeps the reservation. |
| WireReceiver.ChunksArePartition | src/emos_parallel_engine.c:150-192 | Records of 1 to max bytes that together are the stream, nothing lost. |
| ParallelEngine.Engine.constructor | src/emos_parallel.c:46 | The reset state satisfies the invariant: nothing configured, an idle wire, nothing delivered. |
| ParallelEngine.Engine.WaitReady | src/emos_parallel_engine.c:29-55 | Success means READY was sampled at the level; a fault ends it in its turn; it times out only after the ticks given, or after the polls allowed for a clock that stands still; it ends for every READY and clock. |
| ParallelEngine.Engine.WriteRecord | src/emos_parallel_engine.c:57-95 | A receiver sampling at falling clock edges decodes exactly this record, opened after READY low and closed before READY high; it fails by a fault, or with the admission or the completion timeout over in which the peer did not answer, and then leaves at most a prefix or the whole record unconfirmed. |
| ParallelEngine.Engine.Configure | src/emos_parallel_engine.c:97-129 | Configured exactly for limits in range, which are stored as given; the wire is not touched. |
| ParallelEngine.Engine.Open | src/emos_parallel_engine.c:131-140 | Opening clears the fault and idles the wire, unless unconfigured or busy. |
| ParallelEngine.Engine.Close | src/emos_parallel_engine.c:141-149 | Closing idles the wire and delivers nothing. |
| ParallelEngine.Engine.Write | src/emos_parallel_engine.c:150-192 | The engine refines a byte channel: on OK exactly the bytes given, as records; on failure a prefix, an idle wire and a latched fault; refused and nested calls leave the wire alone. |
| ParallelEngine.DeliveredBytes | src/emos_parallel_engine.c:150-192 | Delivery in records is delivery of the bytes: all of them on OK, a prefix otherwise. |
| ParallelOwner.Owner.constructor | src/emos_parallel.c:46-55 | The reset state satisfies the invariant. |
| ParallelOwner.Owner.TryBeginEntry | src/emos_parallel_io.asm:149-200 | An entry gets the lock exactly when it is free and no epoch is open; losing it marks the entry that has it. |
| ParallelOwner.Owner.TryReservePortC | src/emos_parallel_io.asm:201-245 | Port C is reserved exactly when nobody holds the lock and no epoch owns the pins; losing leaves no mark. |
| ParallelOwner.Owner.CommitEpoch | src/emos_parallel_io.asm:281-336 | Ownership is published, and recorded, exactly if no leave, write or entry has lost the lock since this entry took it. |
| ParallelOwner.Owner.EnsureInitialized | src/emos_parallel.c:121-160 | Initialisation happens once, however calls nest in it; it is refused exactly while somebody else initialises. |
| ParallelOwner.Owner.EpochEnter | src/emos_parallel.c:170-250 | An entry that succeeds had a ready peer and issues a lease newer than every earlier one; one that fails publishes nothing; if any leave, write or entry lost the lock while this entry had it, by the record made in the instants of taking and giving it up, it fails. Uninterrupted, the status is decided by generations, UART1, peer and engine, in this order, and so is the whole new state. |
| ParallelOwner.Owner.EntryUnderLock | src/emos_parallel.c:181-250 | From lock to release, under any nesting: one entry in the record, with the refusals at both instants and the peer's answer; if the refusals differ or the peer is not ready, no lease; if they agree, the status is the verdict on what the entry finds. |
| ParallelOwner.Owner.PreparePins | src/emos_parallel.c:190-232 | The checks and pin work of an entry: the peer is asked with the pins released; pins are driven and the engine opened only with UART1 closed, generations left and a ready peer. |
| ParallelOwner.Owner.AbandonEntry | src/emos_parallel.c:238-250 | A failed entry closes the engine, releases the pins and the lock, and is recorded without a lease. |
| ParallelOwner.Owner.EpochLeave | src/emos_parallel.c:252-277 | A leave that wins closes every epoch there was, for good; one that loses leaves a mark. |
| ParallelOwner.Owner.WriteStream | src/emos_parallel.c:279-321 | A lease that was never issued or whose epoch is closed is refused, whatever nests in the call; a write that loses the lock is busy and leaves its mark on the entry; uninterrupted, exactly the lease of the open epoch is accepted. |
| ParallelOwner.Owner.RunEngine | src/emos_parallel.c:300-316 | The engine is entered only with the lease of the epoch that is open, which stays open while it runs. |
| ParallelOwner.Owner.RouteEnter | src/emos_parallel.c:343-353 | Success has a ready peer and publishes a lease newer than every one before the call, under any nesting; a failed entry, uninterrupted, keeps the credential. |
| ParallelOwner.Owner.RouteLeave | src/emos_parallel.c:355-361 | Success forgets the lease and closes every epoch there was; uninterrupted, it fails exactly when it loses the lock, and then keeps both. |
| ParallelOwner.Owner.OpenUart1 | src/uart.c:117-161 | UART1 is opened only when allowed and without an open epoch, and the port stays reserved until it is marked open; uninterrupted, exactly then. |
| ParallelOwner.Owner.CloseUart1 | src/uart.c:165-178 | Closing never conflicts with an epoch. |
| ParallelOwner.Owner.ReservePortC | src/emos_parallel.c:375-384 | A reservation that outlives its call excludes epochs. |
| ParallelOwner.Owner.Interrupt | src/emos_parallel.c:170-392 | Any number of nested calls keeps the invariant (an epoch never shares the pins with UART1, admitted leases match the open epoch, no recorded entry that saw a contender or had no ready peer has a lease) and freezes the state of a lock holder. |
| ReturnPackets.TailIsShort | src/emos_exext.c:86-91 | What cannot be published yet is part of one packet: at most 256 bytes. |
| ReturnPackets.UnitLeavesIdle | src/emos_exext.c:194-217 | A whole unit fed to an idle parser leaves it idle and completes at most one packet, or is a fault. |
| ReturnPackets.PublishBounded | src/emos_exext.c:194-217 | From an idle parser, any content: idle again, at most one event unless a cleanup is set off, and never more than the releases of all keys and key zero. |
| ReturnPackets.PublishesCleanlyExactly | src/emos_exext.c:194-217 | All contents with something to feed publish at most one event and leave the parser idle exactly if the parser is idle or wants the last byte of a key, and no two releases can be set off, faults included. |
| ReturnPackets.PublishesWithoutFaultExactly | src/emos_exext.c:194-217 | All contents that do not fault do so exactly if no answer is due that would release more than one key. |
| ReturnPackets.AnswerReleases | src/emos_keyboard.c:157-175 | The answer to a prepared poll publishes every release in one publication. |
| ReturnPackets.MalformedReleases | src/emos_keyboard.c:97-113 | So does a malformed packet from a remote source. |
| ReturnPackets.KeyArrivesExactly | src/emos_exext.c:194-217 | A valid key packet arrives as its own event, and alone, exactly if the parser is idle, for every state that the invariants of stream and receiver allow it. |
| ReturnPackets.BusyParserSwallowsKey | src/emos_exext.c:218-222 | Published inside a control reply, a key packet of any content becomes payload: no event, no fault, and the parser still inside the reply. |
| ExExt.Stream.constructor | src/emos_exext.c:24-32 | The reset state satisfies both stream invariants. |
| ExExt.Stream.Publish | src/emos_exext.c:194-217 | Exactly what the publication function says of events, keyboard, parser and bytes read; the flag says whether the key counter moved; from an idle parser at most one event, unless releases are set off, and idle again. |
| ExExt.Stream.LoseKey | src/emos_exext.c:218-222 | At every stream at rest with a remote source: a block with any key packet is fetched, a UART reply begins, the block is published, and the packet is used up without an event; before the reply it would have arrived. |
| ExExt.Stream.Transfer | src/emos_exext.c:52-80 | It succeeds exactly if link, session, acknowledgement and port do; success sends the queue once, or brings one block, and gives the reservation back; a refused reservation changes nothing; failure after it keeps it and fences the port, so nothing is sent again. |
| ExExt.Stream.Renew | src/emos_exext.c:58-68 | At number 65535 the session is renewed before anything is sent. |
| ExExt.Stream.OfferBlock | src/emos_exext.c:69-78 | Each admission uses the next number of its session: 1, 2, 3, ..., never 0. |
| ExExt.Stream.Flush | src/emos_exext.c:81-85 | The queue goes out over the port once, is delivered and emptied, or kept as it was, and that only when the reservation was refused or the transfer failed after it. |
| ExExt.Stream.FetchReturn | src/emos_exext.c:86-103 | Exactly min(pending, 256) bytes are brought and appended behind the unread tail, which is kept; it is refused exactly when both together exceed the buffer, which cannot happen without a fault. |
| ExExt.Stream.PollReturn | src/emos_exext.c:104-114 | The peer is asked once; success fetches min(pending, 256) bytes, and failure has one of the stated causes; nothing of the queue is sent. |
| ExExt.Stream.Start | src/emos_exext.c:115-130 | A started stream has a fresh session, just negotiated and its start acknowledged; a refused start changes nothing, and it fails only when the reservation, the negotiation or the start control does. |
| ExExt.Stream.Stop | src/emos_exext.c:131-153 | It succeeds exactly if the peer, asked to stop, has nothing pending and nothing is unread; then everything accepted was delivered and everything fetched was published; it fails for a stated cause only. |
| ExExt.Stream.WriteStream | src/emos_exext.c:155-176 | BUSY exactly if the stream is not there, busy or not routed or interrupts are off, and then nothing changes; OK takes exactly the bytes; a failure takes a prefix, and only with a full queue that could not be flushed; blocks go out full. |
| ExExt.Stream.WriteByte | src/emos_exext.c:177-193 | OK appends this byte, at once unless it completes a block; an interrupt between its steps cannot tear the queue; BUSY exactly at closed gates. |
| ExExt.Stream.Tick | src/emos_exext.c:218-239 | What is unread is published first, exactly as the publication function says; the service runs exactly if that was no event, the stream is owned, free and routed without a fault, and storage is idle; after it the queue is out, what the peer has pending, a block of it, has been fetched and published, or the stream is given up with the port fenced, for a stated cause. A tick during a busy call only publishes. |
| ExExt.Stream.Service | src/emos_exext.c:240-248 | The queue is flushed, then one poll fetches a block; if either fails the stream is given up and the port fenced; both stream invariants are kept, nothing is sent after a failed transfer, and nothing accepted. |
| ExExt.Stream.Interrupt | src/emos_exext.c:52-248 | Under every interleaving of writes, ticks and received bytes: sent blocks followed by the queue are the accepted bytes, blocks have 1 to 4096 bytes, fed and unread bytes are the fetched ones, tickets never repeat unless the peer repeats a nonce, and after a failed transfer nothing is sent again. |
| KeyboardFraming.RunPayload | src/emos_keyboard.c:177-198 | A payload is taken by count; no byte of it is looked at as a header. |
| KeyboardFraming.RunFrame | src/emos_keyboard.c:177-198 | One frame is dispatched whole if it has 1 to 240 bytes and swallowed whole otherwise. |
| KeyboardFraming.RoundTrip | src/emos_keyboard.c:177-198 | Any stream of well-formed frames and noise yields exactly the frames of 1 to 240 bytes, in order and unchanged. |
| KeyboardFraming.KeyPacketNeedsIdle | src/emos_keyboard.c:177-198 | A key packet comes out of the framing as itself, and the receiver at rest, exactly if the receiver was at rest; for every state that the receiver's invariant allows. |
| HeldKeys.SetKeySetsOne | src/emos_keyboard.c:54-65 | Setting a key's bit changes that key and no other. |
| HeldKeys.AgreesAfterEvent | src/emos_keyboard.c:54-65 | Each event keeps the bitmap in agreement with the last event of every key. |
| HeldKeys.CleanupReleasesAll | src/emos_keyboard.c:66-90 | A cleanup releases each held key by exactly one event and nothing else, without physical modifiers. |
| Keyboard.Receiver.Publish | src/emos_keyboard.c:54-65 | One event, the modifiers and the bit that go with it. |
| Keyboard.Receiver.ReleaseKey | src/emos_keyboard.c:66-71 | A held key is released with the lock bits only; a key that is up is left alone. |
| Keyboard.Receiver.Cleanup | src/emos_keyboard.c:72-90 | All keys released, virtual modifiers first, by exactly those events. |
| Keyboard.Receiver.KeyboardFault | src/emos_keyboard.c:97-113 | A fault of a remote source releases every key, by exactly the cleanup events, and idles the parser; a parked UART only takes a note. |
| Keyboard.Receiver.Tick | src/emos_keyboard.c:114-139 | A stop releases every key by exactly the cleanup events, makes the mainboard the source and keeps the parser only while the console has the UART; a fault asked for, or a frame too old, is a fault however it dribbles in, with every key released; nothing else happens. |
| Keyboard.Receiver.PeerReset | src/emos_parallel_startup.c:49-54 | A reset of the peer ends with every key released and the source back at the mainboard. |
| Keyboard.Receiver.FromMainboard | src/emos_keyboard.c:91-93 | Mainboard keys count only while the mainboard is the source. |
| Keyboard.Receiver.Dispatch | src/emos_keyboard.c:157-175 | Only the answer to the poll of a prepared source changes the source; a key packet is one event or, malformed, a fault that releases every key; absent edits by callbacks exactly `ReturnPackets.Dispatch`. |
| Keyboard.Receiver.Byte | src/emos_keyboard.c:177-198 | The receiver takes each byte as the framing function says, or not at all when it is not listening; a malformed header or key ends with every key of a remote source released; absent edits by callbacks the whole step is exactly `ReturnPackets.FeedByte`. |
| Keyboard.Receiver.Feed | src/emos_keyboard.c:177-198 | A stream of bytes dispatches exactly the frames the framing function finds, absent a fault; a fault leaves every key of a remote source released; absent edits it is `ReturnPackets.FeedAll`. |
| AdmissionPacket.U32OfPut32 | src/emos_admission.c:25-30 | Four little-endian bytes hold a 32-bit number and give it back. |
| AdmissionPacket.EchoMeans | src/emos_admission.c:74-108 | A reply that repeats head and body of a packet carries its number, operation, link, generation, job, grant and class. |
| AdmissionPacket.PacketSays | src/emos_admission.c:74-92 | The packet of an operation carries, field by field, its number, result, identity and checksum. |
| AdmissionPacket.EchoAnswers | src/emos_admission.c:93-109 | The echo of a packet, as the peer would send it, is a genuine answer to it. |
| AdmissionPacket.SealedIsChecked | src/emos_admission.c:31-40 | A packet that carries its checksum passes the check: the checksum does not depend on its own field. |
| AdmissionPacket.ComputeCrc | src/emos_admission.c:31-40 | The loop over bytes and bits computes the CRC-32 of the packet without its own field. |
| Checksum.OneByteIsSeen | src/emos_admission.c:31-40 | No change of a single byte leaves the CRC-32 as it was. |
| Checksum.CheckValue | src/emos_admission.c:31-40 | The CRC-32 of the nine digits is the check value published for it, CBF43926. |
| Admission.Console.Receive | src/emos_admission.c:44-51 | The interrupt copies one answer to the packet that is out, and nothing after it. |
| Admission.Console.Retire | src/emos_admission.c:55-70 | Every end of a claim forgets job and grant and takes a new generation; running out of generations ends admission. |
| Admission.Console.Leave | src/emos_admission.c:62-70 | A key withdraws a reservation, tells the peer only if it may know of it, and keeps the link. |
| Admission.Console.SendControl | src/emos_admission.c:74-92 | A number is used up before it is sent and numbers only rise; a wrap sends nothing and latches exhaustion; a failed send ends the exchange. |
| Admission.Console.Reply | src/emos_admission.c:93-109 | The packet in the slot counts exactly if it is genuine by its checksum, answers the latest packet and repeats the identity, or brings a job to a poll; if not, the wait goes on. |
| Admission.Console.OnHello | src/emos_admission.c:126-131 | A link is made exactly by an offer of a nonzero incarnation with the capabilities wanted. |
| Admission.Console.OnPoll | src/emos_admission.c:132-144 | Only a job offered makes a grant, at most one, with the next counter in the present generation; the exchange goes on exactly when there is no job. |
| Admission.Console.MakeGrant | src/emos_admission.c:139-142 | The new grant repeats neither counter nor generation of any earlier one. |
| Admission.Console.OnDecide | src/emos_admission.c:145-150 | A claim is made in the instant in which the key count is what the prompt had observed. |
| Admission.Console.NextRequest | src/emos_admission.c:155-161 | Once in a tick; HELLO in Legacy mode only and not soon after a failure, POLL when idle. |
| Admission.Console.NoReply | src/emos_admission.c:151-153 | A wait ends after 24 clock units or when its turns are used up, exactly. |
| Admission.Console.IdlePrompt | src/emos_admission.c:110-162 | A claim comes only from the acknowledgement of the latest DECIDE with no key in between; once anything is exhausted nothing is granted or claimed; the whole new state is a function of the old one, the clock, the keys, the packet in the slot and what became of the packets sent. |
| Admission.Console.Binding | src/emos_admission.c:163-168 | The running utility is told the identity of its claim, until it reports. |
| Admission.Console.ReportTerminal | src/emos_admission.c:169-173 | A report is taken once, while running, with a number that does not go back and leaves room for one more. |
| Admission.Console.Dispatch | src/emos_admission.c:174-190 | The utility runs only for a claim whose acknowledgement repeats number, link, generation, job and grant; the claim is used up whatever happens, and success needs the utility's report. |

## Left out

- `umm_multi_calloc`: clears memory after an allocation; it would only add an easy member.
- `setVarVal`, `readVarVal`, the UNSET command, GSTrans, macros and argument substitution: they depend on return codes and node lifetimes outside the list contract.
- Labels with spaces, `*` or `#`: creation and lookup are modelled for plain labels, walks for every pattern.
- ConsoleExchange: the version 1 console controls with their checksum, the staged display state and the lease of Exclusive Compatible mode are not modelled.
- ExExt.Stream.Negotiate: the exchange itself is abstract here, with the outcome that `ConsoleExchange.Console.Negotiate` proves; the same goes for `ExExt.Stream.Coordinate` and `Coordinator.Link.Coordinate`.
- ExExt.Stream.Stop: its deadline is a bounded but arbitrary number of polls.
- Coordinator.Link.NativePayload: the bytes on the port during a block are abstract; `ParallelEngine` models a record engine of its own.
- ParallelEngine.Engine: interrupts at the wire can latch a fault and nothing else; calls nested inside `Write` are covered by its refusal while busy. The receive direction of the engine is not modelled.
- ParallelOwner.Owner.EpochEnter: the missing-pointer argument is not modelled; a lease is a number, 0 for none.
- ParallelOwner.Owner.RunEngine: the answer of the engine is arbitrary here; `ParallelEngine` models the engine.
- ParallelOwner.Owner.RouteEnter: the route lease may be published late when calls nest between the entry and its publication; it is newer than every lease before the call, but its epoch may be closed already, and it is then refused.
- Keyboard: selection and layout commands, transmission, the RTS pin, settings effects, telemetry and controller packets.
- SessionProtocol: an overwritten request is added to what can be delivered, beside the request as it was meant.
- ExExt.Stream.LoseKey: the fetch of the block stands for a successful `FetchReturn`; what a transfer brings is arbitrary there.
- ExExt.Stream.Publish: the callback of a key event leaves the packet as it is here; `Keyboard.Receiver` has callbacks that edit it.
- ExExt: a keyboard fault is never cleared, so what a restart of the stream does after one is outside the model.
- Admission: the key count is a byte, as in the code, so 256 keys between two looks are not noticed; numbers sent after exhaustion is latched may repeat.
- The `.emo` container tool, build scripts, file transfer, register timing and the eZ80 assembly beyond the atomic steps named above.
