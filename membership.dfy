/** The room's membership as a plain value.

    `Room.run` receives register and unregister events one at a time and
    applies each to the `clients` table. This module describes the set of
    members after any trace of such events, independently of the table, so
    that the class in module Broker can be checked against it. */
module Membership {

  /** One event received by the room's run loop. */
  datatype Event<T> = Register(session: T) | Unregister(session: T)

  /** The effect of one event on the set of members: register makes the
      session a member (overwriting is harmless), unregister makes it a
      non-member (a no-op when it was not one), nobody else is affected. */
  function Apply<T>(members: set<T>, e: Event<T>): (r: set<T>)
    ensures e.Register? ==> e.session in r
    ensures e.Unregister? ==> e.session !in r
    ensures r - {e.session} == members - {e.session}
  {
    match e
    case Register(s) => members + {s}
    case Unregister(s) => members - {s}
  }

  /** The members after a whole trace, starting from `start`. */
  function Replay<T>(start: set<T>, trace: seq<Event<T>>): (r: set<T>)
  {
    if trace == [] then start else Apply(Replay(start, trace[..|trace| - 1]), trace[|trace| - 1])
  }

  /** A session is live after a trace when some registration of it is not
      followed by any unregistration of it. */
  ghost predicate Live<T>(trace: seq<Event<T>>, s: T)
  {
    exists i :: 0 <= i < |trace| && trace[i] == Register(s) &&
      forall j :: i < j < |trace| ==> trace[j] != Unregister(s)
  }

  /** Starting from the empty room, the membership after any trace is exactly
      the set of sessions that were registered and not unregistered since. */
  lemma {:induction false} ReplayIsLive<T>(trace: seq<Event<T>>, s: T)
    ensures s in Replay({}, trace) <==> Live(trace, s)
  {
    if trace != [] {
      var n := |trace| - 1;
      var prefix := trace[..n];
      ReplayIsLive(prefix, s);
      assert Replay({}, trace) == Apply(Replay({}, prefix), trace[n]);
      if trace[n] == Register(s) {
        assert s in Replay({}, trace);
        assert Live(trace, s) by {
          assert trace[n] == Register(s);
        }
      } else if trace[n] == Unregister(s) {
        assert s !in Replay({}, trace);
      } else {
        assert trace[n].session != s;
        assert s in Replay({}, trace) <==> s in Replay({}, prefix);
        if Live(trace, s) {
          var i :| 0 <= i < |trace| && trace[i] == Register(s) &&
            forall j :: i < j < |trace| ==> trace[j] != Unregister(s);
          assert i < n && prefix[i] == Register(s);
          assert forall j :: i < j < n ==> prefix[j] != Unregister(s) by {
            forall j | i < j < n ensures prefix[j] != Unregister(s) {
              assert prefix[j] == trace[j];
            }
          }
          assert Live(prefix, s);
        }
        if Live(prefix, s) {
          var i :| 0 <= i < n && prefix[i] == Register(s) &&
            forall j :: i < j < n ==> prefix[j] != Unregister(s);
          assert trace[i] == Register(s);
          assert forall j :: i < j < |trace| ==> trace[j] != Unregister(s) by {
            forall j | i < j < |trace| ensures trace[j] != Unregister(s) {
              if j < n { assert trace[j] == prefix[j]; }
            }
          }
          assert Live(trace, s);
        }
      }
    }
  }
}
