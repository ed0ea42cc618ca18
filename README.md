# Chat server registry and readiness wake, modelled in Dafny

This project models the core of a `select`-based TCP chat server,
`enterServer` and `clean` in `core/server.cpp`. The server keeps four pieces
of state:

- the descriptor table `client[FD_SETSIZE]`, where -1 marks a free slot;
- the peer address of each slot;
- the interest set `allset`;
- two scan bounds: `maxi`, the highest slot index ever used, and `maxfd`.

Each wake of its `while (TRUE)` loop does the following:

- it admits one new connection when the listening socket is ready;
- it scans the slots `0..maxi` in ascending order;
- it drains each ready socket the scan reaches into the 200-byte buffer `buf`;
- a slot whose buffer starts with the sentinel `~!` is retired with `clean`;
- any other message is forwarded as the frame `"<index>::::<address>:::<text>"` to every other occupied slot.

The project has six modules:

- `ConnectionRegistry`: the registry as a value (`Registry`) and its invariant `RegistryOk`.
  - `Admission` models the lowest-free-slot admission. `Cleaned` models `clean`.
  - A replayable history of admissions and retirements shows that the invariant holds throughout.
- `MessageReader`: the read loop, given the kernel's `read` returns as a script. `ReadLoop` works in place on an `array<char>`.
- `Frames`: the `%d` index text, the C string in the buffer, the sentinel test, the frame text, and a parser that reads a frame back.
- `Dispatcher`: the recipients of a broadcast and the writes it makes.
- `Multiplexer`: one wake as a function of the registry, the buffer, the ready set, the `accept` result and the read scripts.
  - `Scan` is the data scan and `Wake` the whole wake.
  - The lemmas about them state what the server promises.
- `ChatServer`: class `Server` holds the state in place.
  - The fields are `client: array<int>`, the address sequence, `allset`, `maxi`, `maxfd` and `buf: array<char>`.
  - Its methods are the start-up code, admission, `clean`, servicing one slot, the scan loop, the broadcast loop, and one whole wake.
  - Each method is proved to leave the object exactly as the corresponding function says. The lemmas about the functions therefore hold for the object.

`Scenarios` checks two scenarios against the wake function:

- three clients connect and the middle one says "hello";
- a client leaves with `~!` and the next connection is admitted into its slot.

Some behaviours of the code are easy to misread. The model keeps them as written:

- **`maxi` never shrinks.** `maxi` is the highest index ever used. `clean` never lowers it, so the scan bound can lie past the highest slot that is occupied now.
- **A broadcast ends the scan.** The broadcast loop reuses the scan index `i` and leaves it at `maxi + 1`. So after one message is forwarded, no later ready slot is serviced in that wake.
  - The header comments (server.cpp:18-20, 63-66) promise that data from each client is sent to all the others, but not that every ready client is served in the same wake. In the model, `Scan` stops after a `Received` event, and `ServiceSlot` returns `next == maxi + 1`.
- **The sender is excluded by descriptor.** Recipients are the occupied slots whose descriptor differs from the sender's, not whose index does. Descriptors are distinct, so this reaches every other occupied slot (`ScanForwardsToOthers`).
- **No length is tracked after a read.** The received text is the C string in `buf` as it stands, and `buf` is not cleared between reads.
  - If a ready socket's first `read` returns 0 (the peer closed without `~!`), the previous message is forwarded again under this slot's name, and the slot stays occupied (`EmptyReadResendsBuffer`).
  - The sentinel test also reads stale bytes. A ready socket whose reads deliver nothing is retired if the buffer still starts with `~!` from an earlier departure.

## Model

| member | source | states |
|---|---|---|
| ConnectionRegistry.Initial | core/server.cpp:101-108 | defines the registry after start-up. Its properties are stated by `InitialIsEmpty` |
| ConnectionRegistry.InitialIsEmpty | core/server.cpp:101-108 | after start-up every slot is free and `maxi` is -1. `maxfd` is the listener and the interest set is exactly `{listen_sd}`. The registry invariant holds and the first admission goes to slot 0 |
| ConnectionRegistry.FirstFree | core/server.cpp:123-130 | the search returns the lowest free slot at or after `from`, and every slot it passes is occupied. It returns `FD_SETSIZE` only when no such slot is free |
| ConnectionRegistry.FirstFreeAt | core/server.cpp:123-130 | a free slot with every slot before it occupied is the one the search finds |
| ConnectionRegistry.Admission | core/server.cpp:123-142 | defines admission. It fails with a full table, or fills the lowest free slot and raises the bounds. `AdmissionUsesLowestFree` and `AdmissionKeepsOk` prove what it promises |
| ConnectionRegistry.AdmissionUsesLowestFree | core/server.cpp:123-142 | admission fails exactly when every slot is taken. Otherwise it stores the descriptor and address in the lowest free slot and changes no other slot or address. It adds the descriptor to the interest set and raises `maxfd` and `maxi` to cover it, never lowering either |
| ConnectionRegistry.FillKeepsOk | core/server.cpp:125-142 | storing a descriptor that is not open in a free slot and raising the bounds keeps the registry invariant |
| ConnectionRegistry.AdmissionKeepsOk | core/server.cpp:123-142 | admitting a descriptor that `accept` returned (so not already open) keeps the registry invariant: interest set = listener plus occupied descriptors, active indices at most `maxi`, descriptors distinct |
| ConnectionRegistry.Cleaned | core/server.cpp:233-239 | defines `clean` on the registry: the slot is freed and the descriptor leaves the interest set. `CleanedFreesSlot` and `CleanedKeepsOk` prove what it promises |
| ConnectionRegistry.CleanedFreesSlot | core/server.cpp:233-239 | `clean` frees the slot and removes its descriptor from the interest set. Every other slot, every address, `maxi` and `maxfd` are unchanged. The freed index becomes the next admission's slot unless a lower one is already free |
| ConnectionRegistry.CleanedKeepsOk | core/server.cpp:236-238 | retiring an occupied slot keeps the registry invariant |
| ConnectionRegistry.ReplayKeepsOk | core/server.cpp:104-142 | across any legal sequence of admissions and `clean` calls, the registry invariant holds and the listener is kept. Neither `maxi` nor `maxfd` ever decreases |
| MessageReader.Drained | core/server.cpp:154-159 | defines the bytes the read loop collects: those of every return before the first one of zero or less. `DrainedFits` bounds them and `ReadLoop` is proved to collect exactly them |
| MessageReader.DrainedFits | core/server.cpp:154-159 | whatever `read` returns within its contract, the loop never collects more than `BUFLEN` bytes |
| MessageReader.ProgressStep | core/server.cpp:156-158 | a positive read writes its bytes at `bp`, and `bp` advances by the count while `bytes_to_read` shrinks by it. The offset plus the bytes still to read stays `BUFLEN` |
| MessageReader.Deposit | core/server.cpp:156-157 | a read's bytes land at the write offset and the rest of the buffer is unchanged |
| MessageReader.ReadLoop | core/server.cpp:154-159 | the loop stops at the first return of zero or less. On exit the offset plus `bytes_to_read` is `BUFLEN` and the offset is the number of bytes collected. The buffer is those bytes over its old contents |
| Frames.ExitRequested | core/server.cpp:161 | defines the sentinel test on the first two bytes of the buffer as it stands after the read loop |
| Frames.CString | core/server.cpp:167-175 | the message text `%s` of `buf` is the prefix of the buffer before its first NUL byte. It holds no NUL, and the byte after it is a NUL when the buffer has one |
| Frames.Frame | core/server.cpp:175 | defines the frame text `"<index>::::<address>:::<text>"`. `FrameRoundTrip` proves that it names its sender unambiguously |
| Frames.DecimalString | core/server.cpp:175 | `%d` of an index is a non-empty digit string with no leading zero |
| Frames.DecimalRoundTrip | core/server.cpp:175 | the digits of `%d` read back to the index |
| Frames.AfterIndexRoundTrip | core/server.cpp:175 | the part of a frame after the index reads back the address (no colons) and the message exactly |
| Frames.FrameRoundTrip | core/server.cpp:175 | a frame `"<index>::::<address>:::<text>"` names its sender unambiguously: index, address and text parse back exactly |
| Dispatcher.RecipientsAreTheOthers | core/server.cpp:170-172 | the recipients are exactly the occupied slots up to `maxi` whose descriptor is not the sender's, in strictly ascending order |
| Dispatcher.Broadcast | core/server.cpp:170-177 | defines the writes of the broadcast loop. `BroadcastFollowsRecipients` and `BroadcastReachesOthers` prove who receives them |
| Dispatcher.BroadcastFollowsRecipients | core/server.cpp:170-177 | the broadcast makes one write of the frame per recipient, in the recipients' order |
| Dispatcher.BroadcastReachesOthers | core/server.cpp:170-177 | with distinct descriptors, the broadcast writes the frame once to every other occupied slot up to `maxi` and never to the sender |
| Multiplexer.Scan | core/server.cpp:149-183 | defines the data scan: skip, retire on the sentinel, forward and stop, with the `nready` exits. The `Scan…` lemmas prove what it promises, and `ScanClients` is proved to perform it in place |
| Multiplexer.Wake | core/server.cpp:110-184 | defines one wake: the listener first, then the scan. The `Wake…` lemmas prove what it promises, and `HandleWake` is proved to perform it in place |
| Multiplexer.ScanKeepsOk | core/server.cpp:149-183 | the scan keeps the registry invariant, ends running, and moves neither `maxi` nor `maxfd`. It keeps the listener and every address |
| Multiplexer.ScanKeepsShape | core/server.cpp:149-183 | the scan only ever takes descriptors out of the interest set and keeps the table's shape |
| Multiplexer.ScanOrder | core/server.cpp:149-183 | every event is about a ready, occupied slot at or after the start, with that slot's address. Slots are serviced in ascending order and no more than `nready` of them. Only the last event can be a forwarded message, and nothing is written unless it is one. That no ready slot is passed over is stated by `ScanPassesNoReadySlot` |
| Multiplexer.ScanPassesNoReadySlot | core/server.cpp:149-183 | the scan passes no ready slot over. Every occupied slot whose descriptor is ready gets an event, unless the scan stopped before reaching it: after a forwarded message, or once `nready` descriptors were serviced (lines 180-181) |
| Multiplexer.ScanForwarding | core/server.cpp:164-177 | a forwarded message is the C string in the buffer, from a slot the scan kept. The writes are exactly the broadcast of its frame |
| Multiplexer.ScanDepartures | core/server.cpp:161-163 | a slot changes exactly when it departs. A departed slot is free and its descriptor out of the interest set |
| Multiplexer.ScanServicesFirstReady | core/server.cpp:149-163 | the first event is about the first ready occupied slot. It is a departure exactly when the buffer after the read starts with `~!`; the slot is then freed, and when the departure is the only event nothing is sent. Otherwise it is that slot's message and the only event |
| Multiplexer.EmptyReadResendsBuffer | core/server.cpp:154-177 | a ready slot whose first read returns zero or less forwards the buffer as it was, under its own name, and keeps its slot |
| Multiplexer.ScanLeavesUnready | core/server.cpp:149-153 | a slot whose descriptor was not ready is unchanged by the scan |
| Multiplexer.ScanNothingReady | core/server.cpp:149-153 | with nothing ready the scan does nothing |
| Multiplexer.WakeKeepsOk | core/server.cpp:115-146 | a wake keeps the invariant, keeps the listener, and never lowers `maxi` or `maxfd`. It is fatal exactly when the listener is ready and `accept` fails or every slot is taken. A fatal wake changes nothing and sends nothing |
| Multiplexer.WakeServesListenerFirst | core/server.cpp:115-146 | a ready listener is serviced first. The first event is the admission into the lowest free slot, which still holds the new descriptor after the wake. If the listener was the only ready descriptor, the scan is skipped and nothing is written |
| Multiplexer.WakeAdmitsOnlyFirst | core/server.cpp:115-146 | an admission event comes only from a ready listener and only as the first event |
| Multiplexer.WakeServesInOrder | core/server.cpp:115-183 | data slots are serviced in ascending index order, and a wake reports no more events than `select` reported ready descriptors |
| Multiplexer.WakeScanPart | core/server.cpp:144-149 | the data part of a wake is the scan from `base` with `n` descriptors left. Without a ready listener, `base` is the registry and `n` is the size of `rset`. After an admission, `base` is the registry after it and `n` is one less |
| Multiplexer.ScanForwardsToOthers | core/server.cpp:164-177 | in a scan, every forwarded message reaches every other occupied slot, never the sender, and nothing is written otherwise |
| Multiplexer.WakeForwardsToOthers | core/server.cpp:149-181 | in a whole wake, a forwarded message reaches every other occupied slot and never the sender. Nothing is written unless a message is forwarded |
| ChatServer.Server.constructor | core/server.cpp:101-108 | the new server holds the start-up registry, and the invariant holds |
| ChatServer.Server.Admit | core/server.cpp:123-142 | the object ends as `Admission` says, or, with every slot taken, entirely unchanged. It reports the slot used |
| ChatServer.Server.Clean | core/server.cpp:233-239 | the object ends as `Cleaned` says. Called on the slot being serviced, it keeps the invariant |
| ChatServer.Server.ServiceSlot | core/server.cpp:154-178 | after the read loop the buffer is the drained bytes over the old contents. A sentinel retires the slot, sends nothing and returns its index. Any other buffer leaves the registry alone and sends the broadcast of its frame. `next` is then `maxi + 1` |
| ChatServer.Server.ScanSlot | core/server.cpp:149-183 | one pass of the scan loop keeps the object on track for `Scan`, or ends it in `Scan`'s final state |
| ChatServer.Server.ScanClients | core/server.cpp:149-183 | the scan loop leaves the object, the events and the writes exactly as `Scan` gives them |
| ChatServer.Server.WriteToOthers | core/server.cpp:170-177 | the broadcast loop's writes are `Broadcast` of the frame over the current table |
| ChatServer.Server.HandleWake | core/server.cpp:110-184 | one wake leaves the object, outcome, events and writes exactly as `Wake` gives them |
| Scenarios.ThreeAdmissions | core/server.cpp:123-142 | three connections to a fresh server are admitted as slots 0, 1 and 2 |
| Scenarios.ThreeClientsOk | core/server.cpp:123-142 | that registry satisfies the invariant when the descriptors are distinct |
| Scenarios.HelloInBuffer | core/server.cpp:161 | "hello" read into a zeroed buffer is not the sentinel and is the C string "hello" |
| Scenarios.BroadcastFromMiddle | core/server.cpp:170-177 | slot 1's frame goes to slots 0 and 2, in that order |
| Scenarios.HelloReachesTheOthers | core/server.cpp:149-181 | client 1 sends "hello": clients 0 and 2 receive `"1::::<address>:::hello"` in that order, client 1 receives nothing, and the registry is unchanged |
| Scenarios.SentinelFreesSlotForReuse | core/server.cpp:149-163 | client 0 sends "~!": slot 0 is freed, its descriptor leaves the interest set, nothing is written, and the next connection is admitted into slot 0 |

The `Server` methods are proved with the help of some proof steps, which have no row of their own:

- `WakeStops` and `WakeJoin` unfold `Wake` into its cases.
- `TracksStart`, `TracksSkip`, `TracksRetire`, `TracksForward` and `TracksDone` unfold one case of `Scan` for the scan loop.
- `Scenarios.AdmissionAt` unfolds `Admission` for a known lowest free slot.

Other lemmas state the properties of those cases:

- the fatal paths: `WakeKeepsOk`;
- the skipped scan: `WakeServesListenerFirst`;
- skip, retire and forward: `ScanServicesFirstReady`, `ScanDepartures` and `ScanForwarding`;
- the lowest free slot: `FirstFreeAt`.

## Left out

- Socket creation, `setsockopt`, `bind` and `listen` (lines 77-99) are process set-up with no registry logic. The constructor takes the listening descriptor as a parameter.
- `select`, `accept` and `read` are not modelled as calls. Their results are inputs to a wake:
  - `select` gives the ready set.
  - `nready` is taken as its size, which is what `select` returns. A `select` error (-1) is not modelled.
  - `accept` gives a descriptor or -1. The kernel's guarantee that a new descriptor is not already open is the predicate `AcceptContract`.
  - `read` gives per-descriptor scripts of returns (`ReadScript`).
  - The accepted sockets are blocking: once a client's bytes are consumed, the next `read` waits for more data, end of file or a full buffer. A read script is always finite, so a wake that never leaves the read loop is not modelled.
- `write` is a recorded `Send` (descriptor and frame text). Its return value is ignored, as in the source.
- `close` is not modelled: the effect of `clean` on the registry is what is modelled.
- The `printf`, `std::cout` and `fflush` logging is recorded only as lifecycle events: `Connected`, `Departed` and `Received`.
- `SystemFatal` and `exit(1)` are the `Fatal` outcome of a wake. The process ending is not modelled.
- The address text from `inet_ntoa`/`sscanf` is an opaque string given with each accepted connection. `sin_addrArr`, which is written but never read, is not modelled.
- Frames.Frame: the model records the full frame text at any length. The source `sprintf`s into the 200-byte `tempSendCombine` and then `write`s exactly `BUFLEN` bytes of it:
  - A frame of 200 characters or more overflows that array, which is undefined behaviour in C. Only the first `BUFLEN` bytes would reach a client.
  - So `ScanForwardsToOthers`, `WakeForwardsToOthers` and `HelloReachesTheOthers` promise delivery of the whole `Frame(...)` text. That matches the source only when the frame is shorter than `BUFLEN`.
  - A shorter frame is padded to `BUFLEN` bytes by whatever follows it in `tempSendCombine`. The padding is not modelled.
- `Frames.CString`: a buffer holding no NUL byte is taken whole. C would read past the end of the buffer.
- The `while (TRUE)` loop is one wake (`Wake`, `HandleWake`). Properties across wakes are stated as invariants that each wake keeps (`WakeKeepsOk`) and as the registry history lemma `ReplayKeepsOk`.
- Descriptor values are not bounded by `FD_SETSIZE`. Only the table size is.
- `ScanKeepsOk` does not state how slots change. That relation is stated separately by `ScanDepartures`.
