# A verified model of the websocket message broker

The broker keeps a room: a table of connected clients (`ClientSock`), each
with a declared id and an outbound `send` channel. A client's connection
handler registers it and runs a read loop. The room's run loop adds
registered clients to the table. It removes unregistered ones and closes
their channel, but only when they are still present.
`sendPrivateMessage` builds the envelope `{to: sender, from: recipient,
message}`, with `to` and `from` swapped. It puts the envelope on the queue
of the first member, in map order, whose id is the recipient.
`getAllClients` lists the members' ids, or fails with "empty clients". The
read loop's switch answers the message `"static"` with the comma-joined
roster, sent to the message's `from` field. It forwards any other text,
unchanged, to the message's `to` field.

The model has four modules:

- `Membership` (membership.dfy) gives the pure meaning of a trace of register and
  unregister events: a set of members.
- `Roster` (roster.dfy) defines Go's `strings.Join`. It also defines the
  `Split` that reads the roster reply back, and proves the round trip.
- `Broker` (broker.dfy) holds the classes `Client` and `Room`. Their fields
  change in place: the `clients` table, each client's `send` queue (a
  sequence of envelopes) and its `closed` flag. The methods model the
  source's operations.
- `Scenario` (scenario.dfy) runs one whole session through the room's
  operations: A says hi to B, A leaves and is unregistered twice, then B asks
  for the roster. It proves what B's queue holds at the end.

Go panics when code sends on or closes a closed channel, so `Client.Push`
and `Client.Close` require an open channel. The room's invariant `Valid()`
says that every member's channel is open and every flag in the table is
`true`. This invariant is why every delivery lands on an open queue. It is
also why a second unregister never closes a channel again.

One consequence of the contracts concerns the roster's error text. An empty
roster means an empty room. So the "empty clients" error text and the empty
join sent after it have no recipient. `Dispatch` hands both envelopes to
`SendPrivateMessage`, which then changes nothing: with no members, the
frame `modifies clients.Keys` is empty.

## Model

| member | source | states |
|---|---|---|
| Membership.Apply | project/main.go:52-61 | register makes the client a member, unregister makes it a non-member (a no-op when it was not one); no other membership changes |
| Membership.ReplayIsLive | project/main.go:49-65 | after any trace of events on an empty room, a client is a member exactly when some registration of it is not followed by an unregistration of it |
| Roster.SplitJoin | project/main.go:92 | round trip of `Roster.Join` (Go's `strings.Join`): when no id holds a comma, splitting the comma-joined text of a non-empty roster gives back the same ids in the same order (the empty roster joins to "", which splits to one empty piece) |
| Broker.RosterNamesMembers | project/main.go:125-135 | an id appears in a roster exactly when some member has that id |
| Broker.RosterOfOne | project/main.go:125-135 | with one member, the roster is exactly that member's id |
| Broker.SentTouchesOne | project/main.go:117-122 | a delivery keeps the same members and changes exactly one queue when a member has the recipient's id, and none otherwise |
| Broker.SentToSole | project/main.go:117-122 | when exactly one member has the recipient's id, the envelope is appended to that member's queue and to no other |
| Broker.Client.constructor | project/main.go:147 | a new client has the given id and room, an empty queue and an open channel |
| Broker.Client.Push | project/main.go:119 | enqueuing requires an open channel and appends exactly the envelope |
| Broker.Client.Close | project/main.go:60 | closing requires an open channel, closes it and keeps its contents |
| Broker.Client.Read | project/main.go:68-97 | dispatches exactly the frames before the first one that fails to read or decode, then unregisters itself: the room loses exactly this client, its channel is closed if and only if it was a member, the invariant holds, and member queues only grow |
| Broker.Room.constructor | project/main.go:40-46 | a new room has an empty table and satisfies the invariant |
| Broker.Room.Register | project/main.go:52-55 | the table gains the client mapped to true (membership as `Apply`); re-registering a member changes nothing; the invariant is kept for an open client and broken for a closed one |
| Broker.Room.Unregister | project/main.go:56-61 | the client leaves the table (membership as `Apply`); its channel is closed if and only if it was a member or was closed already, never twice; no queue and no other member changes; the invariant is kept |
| Broker.Room.SendPrivateMessage | project/main.go:109-123 | with a member whose id is the recipient, exactly one such member gets the swapped envelope `{to: sender, from: recipient, message}` appended; without one, nothing changes; membership and closed flags never change |
| Broker.Room.GetAllClients | project/main.go:125-136 | fails with "empty clients" if and only if the table is empty; the ids have one entry per member and, as a multiset, are the members' ids |
| Broker.Room.Dispatch | project/main.go:85-95 | "static" replies to `from` with the comma-joined roster, preceded by the error text when the roster is empty, in which case no queue changes; any other text is forwarded unchanged to `to`; each delivery follows `Sent`; membership is kept |
| Broker.Room.Run | project/main.go:49-65 | processing a trace of events one at a time leaves exactly `Replay` of the trace as members, keeps the invariant, leaves every queue unchanged, and leaves a session's channel closed exactly when it was closed before or some event unregistered it while it was a member |
| Broker.DepartedStep | project/main.go:56-61 | a session has departed after one more event exactly when it had departed before or that event unregisters it while it is a member (the moment at which `Run` closes its channel) |
| Scenario.TwoClients | project/main.go:85-95 | after A says hi to B, A leaves (twice) and B asks for the roster, B's queue holds `{to: A, from: B, message: hi}` and then `{to: B, from: B, message: B}`; A's queue is empty and closed |

## Left out

- Transport I/O is not modelled: the websocket upgrade, `ReadMessage`, `WriteMessage` and `conn.Close`. A read error and a JSON decode error are both one `None` frame in `Client.Read`'s input, and the end of that input stands for the connection closing.
- The write loop that drains `send` onto the connection (project/main.go:99-106) is not modelled. The queue only grows, and closing it keeps its contents.
- JSON encoding and decoding are not modelled. The envelope is the datatype `MessageWeb` with three string fields, and the queue holds envelopes rather than their JSON bytes.
- Concurrency is not modelled: goroutines, the `RWMutex` and the blocking rendezvous of the unbuffered channels. Each operation is one atomic step. The model therefore cannot show interleavings. One example: a registration between `getAllClients` and the following send. Another: a send that blocks while holding the read lock.
- Go's map iteration order is left open. A nondeterministic choice over the remaining keys stands for it. The contracts say "some member with that id" and compare rosters as multisets.
- `handleWebSocket`'s query-parameter extraction, `main`, `ListenAndServe`, `serveHTML` and `log.Printf` are not modelled. They are HTTP, file-system and logging plumbing.
- Broker.Client.Read: does not state the exact contents of the queues after the loop, only that member queues only grow. The exact effect of each step is `Dispatch`'s contract.
- Broker.Room.Run: requires that each registered client is open and is not registered again after its unregistration. This is what the source's only caller does (a fresh client per connection). A closed client registered again would make the next unregister close a closed channel.
- Broker.Room.Unregister: requires the room invariant. Every constructor and operation establishes or keeps it, except a registration of a closed client, which the source never performs.
