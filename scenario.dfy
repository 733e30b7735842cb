/** A whole session of the broker, driven through the room's operations:
    A and B connect, A writes to B, A disconnects (and is unregistered a
    second time, as when teardown races with eviction), then B asks for the
    roster. What the queues hold at the end follows from the operations'
    contracts alone. */
module Scenario {
  import opened Broker
  import Roster

  method TwoClients() returns (inboxB: seq<MessageWeb>, inboxA: seq<MessageWeb>, closedA: bool)
    ensures inboxB == [MessageWeb("A", "B", "hi"), MessageWeb("B", "B", "B")]
    ensures inboxA == [] && closedA
  {
    var room := new Room();
    var a := new Client("A", room);
    var b := new Client("B", room);
    room.Register(a);
    room.Register(b);
    assert room.clients.Keys == {a, b};

    SayHi(room, a, b);

    // A's read loop ends, and a second unregister of A changes nothing.
    room.Unregister(a);
    room.Unregister(a);
    assert room.clients.Keys == {b};

    AskRoster(room, b);
    inboxB, inboxA, closedA := b.send, a.send, a.closed;
  }

  /** A sends {to: "B", message: "hi"}; B gets it with to and from swapped. */
  method SayHi(room: Room, a: Client, b: Client)
    requires room.Valid() && room.clients.Keys == {a, b}
    requires a.id == "A" && b.id == "B"
    modifies room.clients.Keys
    ensures room.Valid() && room.clients == old(room.clients)
    ensures b.send == old(b.send) + [MessageWeb("A", "B", "hi")]
    ensures a.send == old(a.send)
  {
    ghost var q0 := room.Queues();
    ghost var r, replies := room.Dispatch(a.id, MessageWeb("B", "", "hi"));
    SentToSole(q0, room.Queues(), "B", MessageWeb("A", "B", "hi"), b);
    assert b.send == room.Queues()[b];
    assert a.send == room.Queues()[a] == q0[a];
  }

  /** B, alone in the room, asks for the roster naming itself in `from`. */
  method AskRoster(room: Room, b: Client)
    requires room.Valid() && room.clients.Keys == {b}
    requires b.id == "B"
    modifies room.clients.Keys
    ensures room.Valid() && room.clients == old(room.clients)
    ensures b.send == old(b.send) + [MessageWeb("B", "B", "B")]
  {
    ghost var q1 := room.Queues();
    ghost var roster, replies := room.Dispatch(b.id, MessageWeb("", "B", Static));
    RosterOfOne(roster, b);
    assert Roster.Join(roster, [Comma]) == "B";
    SentToSole(q1, room.Queues(), "B", MessageWeb("B", "B", "B"), b);
    assert b.send == room.Queues()[b];
  }
}
