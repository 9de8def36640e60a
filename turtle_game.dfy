/** The per-room actor `TurtleGame` (durable_objects/turtle-game.ts): it owns one
    session registry, connects every websocket request without an `onConnect` hook,
    and relays every message received on a socket to all the other sockets. */
module Relay {
  import opened Sessions

  class TurtleGame {
    const sessions: SessionRegistry

    ghost predicate Valid()
      reads this, sessions
    {
      sessions.Valid()
    }

    /** A freshly constructed game has an empty registry and has sent nothing. */
    constructor ()
      ensures Valid() && fresh(sessions)
      ensures sessions.sessions == [] && sessions.listening == {}
      ensures sessions.sent == [] && sessions.closed == []
    {
      sessions := new SessionRegistry();
    }

    /** `websocket()`: registers exactly one never-seen socket at the end of the registry and
        answers with status 101; with no `onConnect` hook nothing is sent to anyone. */
    method Websocket() returns (socket: SocketId, status: int)
      requires Valid()
      modifies sessions
      ensures Valid()
      ensures socket !in old(sessions.sessions) && socket !in old(sessions.listening)
      ensures sessions.next == old(sessions.next) + 1
      ensures sessions.sessions == old(sessions.sessions) + [socket]
      ensures sessions.listening == old(sessions.listening) + {socket}
      ensures sessions.sent == old(sessions.sent) && sessions.closed == old(sessions.closed)
      ensures status == 101
    {
      var trace;
      socket, status, trace := sessions.Connect(false);
    }

    /** The message listener: `data` arriving on socket `s` is broadcast from `s`.
        It reaches every other registered socket whose send does not throw, unchanged,
        and never `s`; the registry only shrinks, and `s` keeps its place in it. */
    method OnMessage(s: SocketId, data: string, broken: set<SocketId>) returns (delivered: seq<SocketId>)
      requires Valid()
      modifies sessions
      ensures Valid()
      ensures s !in delivered
      ensures forall x :: x in delivered <==> x in old(sessions.sessions) && x != s && x !in broken
      ensures sessions.sent == old(sessions.sent) + Attempts(old(sessions.sessions), s, data, broken)
      ensures forall a :: a in sessions.sent[|old(sessions.sent)|..] ==> a.message == data && a.to != s
      ensures sessions.sessions == Survivors(old(sessions.sessions), s, broken)
      ensures IsSubsequence(sessions.sessions, old(sessions.sessions))
      ensures |sessions.sessions| <= |old(sessions.sessions)|
      ensures multiset(sessions.sessions)[s] == multiset(old(sessions.sessions))[s]
      ensures sessions.listening == old(sessions.listening)
      ensures sessions.closed == old(sessions.closed) && sessions.next == old(sessions.next)
    {
      delivered := sessions.Broadcast(s, data, broken);
      DeliveredMembers(old(sessions.sessions), s, broken);
      assert sessions.sent[|old(sessions.sent)|..] == Attempts(old(sessions.sessions), s, data, broken);
    }
  }
}
