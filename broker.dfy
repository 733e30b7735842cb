/** The message broker: a room holding a table of connected clients, each with
    an outbound queue, and the routing operations that enqueue onto them.

    Each operation is one atomic step: the source's goroutines, its
    read-write lock and the rendezvous of its unbuffered channels are not
    modelled. A client's `send` channel is an unbounded sequence of
    envelopes plus a `closed` flag; sending on or closing a closed channel
    makes Go panic, so both are preconditions here. */
module Broker {
  import Membership
  import opened Roster

  datatype Option<T> = None | Some(value: T)

  /** The JSON envelope {"to", "from", "message"} used both for decoded
      inbound frames and for the envelopes queued to a client. */
  datatype MessageWeb = MessageWeb(to: string, from: string, message: string)

  /** The message text that asks for the roster instead of being forwarded. */
  const Static := "static"

  /** The error text of an empty roster. */
  const EmptyClients := "empty clients"

  /** The separator of the roster reply. */
  const Comma := ','

  /** The members of `members` whose id is `x`. */
  ghost function WithId(members: set<Client>, x: string): set<Client>
  {
    set c | c in members && c.id == x
  }

  lemma WithIdAdd(done: set<Client>, c: Client, x: string)
    requires c !in done
    ensures |WithId(done + {c}, x)| == |WithId(done, x)| + (if c.id == x then 1 else 0)
  {
    if c.id == x {
      assert WithId(done + {c}, x) == WithId(done, x) + {c};
    } else {
      assert WithId(done + {c}, x) == WithId(done, x);
    }
  }

  /** `ids` lists the ids of `members`, one entry per member, in some order:
      as a multiset it is exactly the members' ids. */
  ghost predicate IsRoster(ids: seq<string>, members: set<Client>)
  {
    && |ids| == |members|
    && forall x :: multiset(ids)[x] == |WithId(members, x)|
  }

  /** A roster names exactly the ids that some member has. */
  lemma RosterNamesMembers(ids: seq<string>, members: set<Client>, x: string)
    requires IsRoster(ids, members)
    ensures x in ids <==> exists c :: c in members && c.id == x
  {
    if x in ids {
      assert multiset(ids)[x] > 0;
      assert |WithId(members, x)| > 0;
      var c :| c in WithId(members, x);
    }
    if c :| c in members && c.id == x {
      assert c in WithId(members, x);
      assert multiset(ids)[x] > 0;
    }
  }

  /** With a single member, the roster is that member's id. */
  lemma RosterOfOne(ids: seq<string>, c: Client)
    requires IsRoster(ids, {c})
    ensures ids == [c.id]
  {
    assert |ids| == 1;
    assert multiset(ids)[c.id] == |WithId({c}, c.id)|;
    assert WithId({c}, c.id) == {c};
    assert ids[0] == c.id;
  }

  /** The effect of one delivery on the queue table: when some member has the
      recipient's id, exactly one such member's queue grows by `env` and no
      other queue changes; when none has, nothing changes. */
  ghost predicate Sent(before: map<Client, seq<MessageWeb>>, after: map<Client, seq<MessageWeb>>,
                       recipientID: string, env: MessageWeb)
  {
    if exists t :: t in before && t.id == recipientID
    then exists t :: t in before && t.id == recipientID && after == before[t := before[t] + [env]]
    else after == before
  }

  /** The queues a delivery changed. */
  ghost function Changed(before: map<Client, seq<MessageWeb>>, after: map<Client, seq<MessageWeb>>): set<Client>
  {
    set c | c in before && c in after && after[c] != before[c]
  }

  /** A delivery touches exactly one queue when the recipient is present and
      none otherwise, and it keeps the same members. */
  lemma SentTouchesOne(before: map<Client, seq<MessageWeb>>, after: map<Client, seq<MessageWeb>>,
                       recipientID: string, env: MessageWeb)
    requires Sent(before, after, recipientID, env)
    ensures after.Keys == before.Keys
    ensures |Changed(before, after)| == if exists t :: t in before && t.id == recipientID then 1 else 0
  {
    if exists t :: t in before && t.id == recipientID {
      var t :| t in before && t.id == recipientID && after == before[t := before[t] + [env]];
      assert after[t] != before[t] by { assert |after[t]| == |before[t]| + 1; }
      assert Changed(before, after) == {t};
    } else {
      assert Changed(before, after) == {};
    }
  }

  /** Delivering to an id that exactly one member has appends the envelope
      to that member's queue and to no other. */
  lemma SentToSole(before: map<Client, seq<MessageWeb>>, after: map<Client, seq<MessageWeb>>,
                   recipientID: string, env: MessageWeb, t: Client)
    requires Sent(before, after, recipientID, env)
    requires t in before && t.id == recipientID
    requires forall u :: u in before && u.id == recipientID ==> u == t
    ensures after == before[t := before[t] + [env]]
  {
  }

  /** Some event of `trace` unregisters `c` at a moment when, starting from
      the members `start`, it is a member: the run loop closes its channel
      then. */
  ghost predicate Departed(start: set<Client>, trace: seq<Membership.Event<Client>>, c: Client)
  {
    exists j :: 0 <= j < |trace| && trace[j] == Membership.Unregister(c) &&
      c in Membership.Replay(start, trace[..j])
  }

  /** One more event departs `c` exactly when it unregisters `c` while `c` is
      a member. */
  lemma DepartedStep(start: set<Client>, trace: seq<Membership.Event<Client>>, k: nat, c: Client)
    requires k < |trace|
    ensures Departed(start, trace[..k + 1], c) <==>
              Departed(start, trace[..k], c) ||
              (trace[k] == Membership.Unregister(c) && c in Membership.Replay(start, trace[..k]))
  {
    var t1 := trace[..k + 1];
    assert forall j :: 0 <= j <= k ==> t1[..j] == trace[..j] && t1[j] == trace[j];
    if Departed(start, t1, c) {
      var j :| 0 <= j < |t1| && t1[j] == Membership.Unregister(c) &&
        c in Membership.Replay(start, t1[..j]);
      if j < k {
        assert trace[..k][j] == trace[j] && trace[..k][..j] == trace[..j];
        assert Departed(start, trace[..k], c);
      }
    }
    if Departed(start, trace[..k], c) {
      var j :| 0 <= j < k && trace[..k][j] == Membership.Unregister(c) &&
        c in Membership.Replay(start, trace[..k][..j]);
      assert trace[..k][..j] == trace[..j];
      assert Departed(start, t1, c);
    }
    if trace[k] == Membership.Unregister(c) && c in Membership.Replay(start, trace[..k]) {
      assert Departed(start, t1, c);
    }
  }

  /** One connected client (ClientSock): its declared id, the room it belongs
      to, and its outbound channel. */
  class Client {
    const id: string
    const room: Room
    var send: seq<MessageWeb>
    var closed: bool

    /** A freshly accepted connection: an open, empty channel. */
    constructor (id: string, room: Room)
      ensures this.id == id && this.room == room
      ensures send == [] && !closed
    {
      this.id := id;
      this.room := room;
      send := [];
      closed := false;
    }

    /** `client.send <- out`: enqueue one envelope on an open channel. */
    method Push(env: MessageWeb)
      requires !closed
      modifies this
      ensures send == old(send) + [env] && !closed
    {
      send := send + [env];
    }

    /** `close(client.send)`: only an open channel may be closed. */
    method Close()
      requires !closed
      modifies this
      ensures closed && send == old(send)
    {
      closed := true;
    }

    /** The read loop: dispatch every frame that decodes, stop at the first
        one that does not (a read error or a JSON error, both `None`); then
        unregister from the room. The end of `frames` stands for the
        connection closing, which the source sees as a read error. Returns
        how many frames were dispatched. */
    method Read(frames: seq<Option<MessageWeb>>) returns (handled: nat)
      requires room.Valid()
      modifies room, room.clients.Keys, this
      ensures room.Valid()
      ensures handled <= |frames|
      ensures forall i :: 0 <= i < handled ==> frames[i].Some?
      ensures handled < |frames| ==> frames[handled].None?
      ensures room.clients == old(room.clients) - {this}
      ensures closed == (old(closed) || this in old(room.clients))
      ensures forall d :: d in room.clients ==> old(d.send) <= d.send && d.closed == old(d.closed)
    {
      handled := 0;
      while handled < |frames| && frames[handled].Some?
        invariant handled <= |frames|
        invariant forall i :: 0 <= i < handled ==> frames[i].Some?
        invariant room.Valid() && room.clients == old(room.clients)
        invariant forall d :: d in room.clients ==> old(d.send) <= d.send && d.closed == old(d.closed)
        invariant this !in room.clients ==> closed == old(closed)
      {
        ghost var roster, replies := room.Dispatch(id, frames[handled].value);
        handled := handled + 1;
      }
      room.Unregister(this);
    }
  }

  /** The room: the table of connected clients. Every value in the table is
      `true`; the keys are the members. */
  class Room {
    var clients: map<Client, bool>

    /** Every member's channel is open, so delivery never sends on, and
        unregister never closes, a closed channel. */
    ghost predicate Valid()
      reads this, clients.Keys
    {
      forall c :: c in clients ==> clients[c] && !c.closed
    }

    /** The outbound queue of every member. */
    ghost function Queues(): map<Client, seq<MessageWeb>>
      reads this, clients.Keys
    {
      map c | c in clients :: c.send
    }

    /** newRoom: an empty table. */
    constructor ()
      ensures clients == map[] && Valid()
    {
      clients := map[];
    }

    /** The register case of the run loop: `clients[client] = true`. */
    method Register(c: Client)
      modifies this
      ensures clients == old(clients)[c := true]
      ensures clients.Keys == Membership.Apply(old(clients.Keys), Membership.Register(c))
      ensures old(Valid()) && c in old(clients) ==> clients == old(clients)
      ensures old(Valid()) && !c.closed ==> Valid()
      ensures c.closed ==> !Valid()
    {
      clients := clients[c := true];
    }

    /** The unregister case of the run loop: a member is deleted and its
        channel closed; a non-member is left alone, so a second unregister
        never closes the channel again. */
    method Unregister(c: Client)
      requires Valid()
      modifies this, c
      ensures Valid()
      ensures clients == old(clients) - {c}
      ensures clients.Keys == Membership.Apply(old(clients.Keys), Membership.Unregister(c))
      ensures c.closed == (old(c.closed) || c in old(clients))
      ensures c.send == old(c.send)
      ensures forall d :: d in clients ==> d.send == old(d.send) && d.closed == old(d.closed)
    {
      if c in clients {
        clients := clients - {c};
        c.Close();
      }
    }

    /** sendPrivateMessage: build the envelope {To: senderID, From:
        recipientID, Message: msg} (note the swap) and enqueue it on the
        first member, in the map's unspecified order, whose id is
        recipientID. Returns, as a ghost, the member it reached, if any. */
    method SendPrivateMessage(senderID: string, recipientID: string, msg: string)
      returns (ghost target: Client?)
      requires Valid()
      modifies clients.Keys
      ensures Valid() && clients == old(clients)
      ensures Sent(old(Queues()), Queues(), recipientID, MessageWeb(senderID, recipientID, msg))
      ensures target == null <==> forall c :: c in clients ==> c.id != recipientID
      ensures target != null ==> target in clients && target.id == recipientID &&
                                 target.send == old(target.send) + [MessageWeb(senderID, recipientID, msg)]
      ensures forall d :: d in clients && d != target ==> d.send == old(d.send)
      ensures forall d :: d in clients ==> old(d.send) <= d.send && d.closed == old(d.closed)
    {
      var env := MessageWeb(senderID, recipientID, msg);
      target := null;
      var rest := clients.Keys;
      while rest != {}
        invariant rest <= clients.Keys
        invariant forall c :: c in clients && c !in rest ==> c.id != recipientID
        invariant target == null
        invariant forall d :: d in clients ==> d.send == old(d.send) && d.closed == old(d.closed)
        decreases rest
      {
        var c :| c in rest;
        if c.id == recipientID {
          c.Push(env);
          target := c;
          break;
        }
        rest := rest - {c};
      }
      if target != null {
        assert Queues() == old(Queues())[target := old(Queues())[target] + [env]];
      } else {
        assert Queues() == old(Queues());
      }
    }

    /** getAllClients: the ids of all members, one per member in the map's
        unspecified order, or the "empty clients" error (with no ids) when
        there are none. */
    method GetAllClients() returns (ids: seq<string>, err: Option<string>)
      ensures err.Some? <==> clients == map[]
      ensures err.Some? ==> err.value == EmptyClients
      ensures IsRoster(ids, clients.Keys)
    {
      ids := [];
      var rest := clients.Keys;
      while rest != {}
        invariant rest <= clients.Keys
        invariant IsRoster(ids, clients.Keys - rest)
        decreases rest
      {
        var c :| c in rest;
        ghost var done := clients.Keys - rest;
        assert clients.Keys - (rest - {c}) == done + {c};
        forall x ensures multiset(ids + [c.id])[x] == |WithId(done + {c}, x)| {
          WithIdAdd(done, c, x);
        }
        ids := ids + [c.id];
        rest := rest - {c};
      }
      assert clients.Keys - rest == clients.Keys;
      if |ids| == 0 {
        assert clients.Keys == {};
        return [], Some(EmptyClients);
      }
      err := None;
    }

    /** The switch of the read loop on one decoded message from the client
        with id selfID. "static" asks for the roster: it is joined with ","
        and sent to the message's `from` field; on an empty roster the error
        text is sent first and, there being no `else`, the empty join after
        it. Any other text is forwarded unchanged to the message's `to`
        field. Returns, as ghosts, the roster used and the envelopes handed
        to SendPrivateMessage, in order. */
    method Dispatch(selfID: string, m: MessageWeb)
      returns (ghost roster: seq<string>, ghost replies: seq<MessageWeb>)
      requires Valid()
      modifies clients.Keys
      ensures Valid() && clients == old(clients)
      ensures forall d :: d in clients ==> old(d.send) <= d.send && d.closed == old(d.closed)
      ensures m.message != Static ==>
                && replies == [MessageWeb(selfID, m.to, m.message)]
                && Sent(old(Queues()), Queues(), m.to, replies[0])
      ensures m.message == Static ==> IsRoster(roster, clients.Keys)
      ensures m.message == Static && clients != map[] ==>
                && replies == [MessageWeb(selfID, m.from, Join(roster, [Comma]))]
                && Sent(old(Queues()), Queues(), m.from, replies[0])
      ensures m.message == Static && clients == map[] ==>
                && replies == [MessageWeb(selfID, m.from, EmptyClients), MessageWeb(selfID, m.from, "")]
                && Queues() == old(Queues())
    {
      replies := [];
      if m.message == Static {
        var ids, err := GetAllClients();
        if err.Some? {
          ghost var t0 := SendPrivateMessage(selfID, m.from, err.value);
          replies := replies + [MessageWeb(selfID, m.from, err.value)];
        }
        ghost var t1 := SendPrivateMessage(selfID, m.from, Join(ids, [Comma]));
        replies := replies + [MessageWeb(selfID, m.from, Join(ids, [Comma]))];
        roster := ids;
      } else {
        ghost var t := SendPrivateMessage(selfID, m.to, m.message);
        replies := [MessageWeb(selfID, m.to, m.message)];
        roster := [];
      }
    }

    /** The run loop: receive register and unregister events one at a time
        and apply each to the table. As with its only caller, every client
        registered is open and is not registered again after it was
        unregistered; otherwise the next unregister would close a closed
        channel. */
    method Run(trace: seq<Membership.Event<Client>>)
      requires Valid()
      requires forall i :: 0 <= i < |trace| && trace[i].Register? ==> !trace[i].session.closed
      requires forall i, j :: 0 <= j < i < |trace| && trace[i].Register? ==>
                 trace[j] != Membership.Unregister(trace[i].session)
      modifies this, set i | 0 <= i < |trace| :: trace[i].session
      ensures Valid()
      ensures clients.Keys == Membership.Replay(old(clients.Keys), trace)
      ensures forall i :: 0 <= i < |trace| ==> trace[i].session.send == old(trace[i].session.send)
      ensures forall i :: 0 <= i < |trace| ==>
                (trace[i].session.closed <==>
                   old(trace[i].session.closed) || Departed(old(clients.Keys), trace, trace[i].session))
    {
      var k := 0;
      while k < |trace|
        invariant k <= |trace|
        invariant Valid()
        invariant clients.Keys == Membership.Replay(old(clients.Keys), trace[..k])
        invariant forall i :: k <= i < |trace| && trace[i].Register? ==> !trace[i].session.closed
        invariant forall i :: 0 <= i < |trace| ==> trace[i].session.send == old(trace[i].session.send)
        invariant forall i :: 0 <= i < |trace| ==>
                    (trace[i].session.closed <==>
                       old(trace[i].session.closed) || Departed(old(clients.Keys), trace[..k], trace[i].session))
        decreases |trace| - k
      {
        ghost var members := clients.Keys;
        match trace[k] {
          case Register(c) => Register(c);
          case Unregister(c) => Unregister(c);
        }
        forall i | 0 <= i < |trace|
          ensures trace[i].session.closed <==>
                    old(trace[i].session.closed) || Departed(old(clients.Keys), trace[..k + 1], trace[i].session)
        {
          DepartedStep(old(clients.Keys), trace, k, trace[i].session);
        }
        assert trace[..k + 1][..k] == trace[..k];
        k := k + 1;
      }
      assert trace[..|trace|] == trace;
    }
  }
}
