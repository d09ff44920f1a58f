# Connection registry and broadcast hub of locastream

locastream streams live positions to viewers over WebSockets. The server side
of that is one small Go file, `internal/api/websocket.go`. It keeps a shared
list `connections` of open connections. Each connection runs its own handler.
The handler registers the connection and then reads messages in a loop:
- a message that parses as a `Location` is rebroadcast, as its original bytes,
  to every registered connection (the sender included);
- a message that does not parse is logged and skipped;
- the first read error is logged and ends the loop. The deferred calls then
  remove the connection from the list and close it, in that order.

`websocket.dfy` (module `Api`) models this as one sequential object, `Hub`:
- `connections: seq<ConnId>` is the Go slice;
- `history: seq<Event>` records, in order, every registry call, every write
  attempt with its outcome (a failed write stands for the "Error writing
  message" log line), the two other log lines, and every `Close`.

`Valid()` ties the two together: the list is always what the registry calls in
the history leave behind.

The outside world is given as data:
- a connection handle is a number (Go compares handles by pointer);
- a read outcome is an `Inbound`: either a message (frame kind, bytes, and the
  set of handles whose write fails while that message is fanned out) or a read
  error;
- `json.Unmarshal` into `Location` is the parameter `parses: Bytes -> bool`.

Specification functions describe what the operations do: `RemoveFirst` (the
splice), `FanOut` (one broadcast), `Step` and `Session` (the receive loop),
and `Registry` and `Membership` (the net effect of a history). The methods are
proved against them, and the lemmas state what the source promises about them.
`Scenario` is a client of the hub: three viewers join, one leaves, and each
broadcast reaches exactly the viewers registered at that time.

Where a reader might expect other behaviour, the model follows the code:
- there is no "exclude the sender" option; every broadcast also goes back to
  its sender;
- a failed write is only logged; the failing connection is not scheduled for
  removal, and it stays registered until its own read loop ends;
- the lock is held for the whole broadcast, sends included; no snapshot is
  taken;
- the list does not reject duplicates. It stays duplicate-free as long as no
  handle is registered while it is still listed: `AddKeepsDistinct` and
  `RemoveFirstKeepsDistinct` cover one call each, `RegistryStaysDistinct` a
  whole history, and `HubDistinct` a hub;
- the only check on a payload is that `json.Unmarshal` accepts it; there is no
  latitude/longitude range check and no check that the fields are present.

## Model

| member | source | states |
|---|---|---|
| `Api.Hub.constructor` | internal/api/websocket.go:22-23 | the package starts with an empty connection list and has done nothing yet |
| `Api.Hub.AddConnection` | internal/api/websocket.go:84-89 | the new list is the old list with `c` appended at the end (duplicates allowed); the call is recorded; the registry invariant is kept |
| `Api.Hub.RemoveConnection` | internal/api/websocket.go:92-103 | the search loop finds the first entry equal to `c` and splices it out; no later entry is touched; with no match the list is unchanged |
| `Api.Hub.BroadcastMessage` | internal/api/websocket.go:69-81 | the writes appended to the history are exactly `FanOut` of the list at call time; the list itself is unchanged |
| `Api.Hub.ReceiveLoop` | internal/api/websocket.go:43-60 | the loop's events are exactly `Session` of the reads; it ends (returns true) exactly when a read error occurs; the registry is unchanged |
| `Api.Hub.Serve` | internal/api/websocket.go:36-61 | registers `c`, runs the loop, and only when a read error ended it, deregisters and then closes `c`, in that order; a finished session started from a list without `c` leaves the list as it found it |
| `Api.RemoveFirst` | internal/api/websocket.go:97-101 | the list after the search-and-splice loop: its first entry equal to `c` removed, unchanged when there is none (its meaning is proved in `RemoveFirstSplices` and `RemoveFirstMultiset`) |
| `Api.FirstIndex` | internal/api/websocket.go:97-98 | the position where the search stops: every earlier entry differs from `c`, and the entry there is `c` unless the search ran off the end |
| `Api.FirstIndexFindsMember` | internal/api/websocket.go:97-102 | the search stops before the end exactly when `c` is in the list |
| `Api.RemoveFirstSplices` | internal/api/websocket.go:97-101 | when `c` is present, removal deletes exactly the entry at its first position: the list is one shorter and the other entries keep their order; when `c` is absent the list is unchanged (a no-op, not an error) |
| `Api.RemoveFirstMultiset` | internal/api/websocket.go:97-101 | removal takes away exactly one copy of `c` if there is one, and no other entry |
| `Api.RemoveFirstKeepsDistinct` | internal/api/websocket.go:97-101 | in a duplicate-free list, removing `c` leaves no copy of `c` and no duplicates |
| `Api.AddThenRemoveRestores` | internal/api/websocket.go:84-103 | adding a handle that is not in the list and then removing it restores the original list |
| `Api.AddKeepsDistinct` | internal/api/websocket.go:84-89 | appending a handle keeps the list duplicate-free exactly when the list was duplicate-free and did not hold the handle; AddConnection itself does not check this |
| `Api.RegistryStaysDistinct` | internal/api/websocket.go:84-103 | after any history in which no handle is registered while still listed, the list holds no duplicate |
| `Api.Registry` | internal/api/websocket.go:84-103 | the list that a history of add and remove calls leaves, replayed from the empty list; `Hub.Valid()` says the hub's list is always this |
| `Api.Membership` | internal/api/websocket.go:84-103 | the reference definition of the net effect of a history: one copy per add, one copy taken away per remove if there is one |
| `Api.RegistryMembership` | internal/api/websocket.go:84-103 | after any history of add and remove calls, the list holds exactly the net multiset of handles: each add contributes one copy, each remove takes one away if present; nothing is lost or duplicated |
| `Api.HubMembership` | internal/api/websocket.go:84-103 | a hub's list holds exactly the net multiset of the handles its history registered and deregistered |
| `Api.HubDistinct` | internal/api/websocket.go:84-103 | a hub whose history never registered a handle that was still listed holds no duplicate |
| `Api.Hub.Record` | internal/api/websocket.go:37-55 | a log line (read error at :46, parse error at :54) or the deferred close at :37 is appended to the history as one event, and the list is unchanged |
| `Api.FanOut` | internal/api/websocket.go:74-80 | the writes of one broadcast: exactly one write attempt per list entry (its length is the list's), spelled out entry by entry in `FanOutVisitsInOrder` |
| `Api.FanOutVisitsInOrder` | internal/api/websocket.go:74-80 | a broadcast makes one write per list entry, in list order, each a text frame with the identical bytes; a failed write does not stop the walk, and a failure only marks that one write as failed |
| `Api.FanOutReachesEachEntryOnce` | internal/api/websocket.go:74-80 | a broadcast attempts as many writes to each handle, the sender included, as the handle has entries in the list, so exactly one when registered once; failed writes count as attempts |
| `Api.Step` | internal/api/websocket.go:44-59 | the events of one turn of the handler loop: a read error is logged, a message that does not parse is logged and skipped, one that parses is fanned out as its own bytes |
| `Api.Session` | internal/api/websocket.go:43-60 | the events of the whole handler loop: one turn per read, up to and including the first read error, nothing after it |
| `Api.StepWritesCarryPayload` | internal/api/websocket.go:50-59 | a write made while handling one read comes only from a message that parses, and carries that message's raw bytes as a text frame to a registered handle |
| `Api.StepDelivery` | internal/api/websocket.go:50-59 | handling one read writes to a handle once per list entry of that handle if the read is a message that parses, and not at all otherwise |
| `Api.SessionStopsAtFirstError` | internal/api/websocket.go:43-48 | every read before the first read error is handled; the error is logged; nothing after it is read |
| `Api.SessionWritesOnlyAcceptedPayloads` | internal/api/websocket.go:43-60 | every write of a session is a text frame to a registered handle, carrying unmodified the bytes of a message that parsed and was read before any read error; a message that fails to parse reaches nobody |
| `Api.SessionDelivery` | internal/api/websocket.go:43-60 | in total, the write attempts of a session to a handle number its list entries times the messages accepted before the first read error; a rejected message does not stop the loop |
| `Api.SessionPrefix` | internal/api/websocket.go:43-60 | the events of the reads up to any point before the first read error are the start of the whole session's events: later reads only add events |
| `Api.SessionBroadcastsEachAccepted` | internal/api/websocket.go:50-59 | each message that parses and is read before any read error is fanned out whole right after the events of the earlier reads: one write of its bytes to every list entry, in list order |

## Left out

- The mutex, the goroutine per connection, and how several handlers interleave (internal/api/websocket.go:20, 36). Each Go operation holds the lock for its whole body, so each is modelled as one atomic step.
- Api.Hub.Serve: runs one whole session with no other handler's operations in between. During a session the list is therefore exactly the old list plus `c`. Several concurrent sessions are expressed only by calling `AddConnection`, `BroadcastMessage` and `RemoveConnection` directly, as `Scenario` does.
- Api.Hub.Serve: when the supplied reads run out without an error, the model stops with `c` still registered. The real handler would block in `ReadMessage` at that point.
- The upgrader configuration and the upgrade call, with its error path that answers HTTP 500 (internal/api/websocket.go:25-32, 36, 62-65). This is the library's handshake; the model starts with an upgraded handle.
- The JSON grammar and the decoding into `Location` (internal/api/websocket.go:13-17, 51-52). Parsing is an arbitrary predicate `parses` on the bytes.
- Network reads and writes. Read outcomes come in as a sequence. A write's outcome comes from the `unreachable` set that travels with each message, so all entries of one handle share the same outcome within one broadcast.
- The text of the log lines and where they are printed. Each log line is an event in `history`.
- The shared backing array of the Go slice. `append(connections[:i], connections[i+1:]...)` shifts the later elements in place, and no other holder of that array can observe this while the lock is held; the model works on sequence values.
- The frame kind returned by `ReadMessage` is read but never used. The model keeps it in `Inbound`, and every broadcast write is a text frame whatever the kind received.
- client/client.go, internal/api/home.go, cmd/main.go and internal/router/router.go are not part of this model. They hold HTTP calls to geocoding and routing services, the viewer page, process start-up and shutdown, and the route table: I/O and presentation with no logic of the hub.
