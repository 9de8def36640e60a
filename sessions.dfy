/** The per-room session registry of `createSessions` (durable_objects/helpers.ts):
    an ordered list of live sockets with connect, disconnect and best-effort broadcast.

    Sockets are opaque ids. A send that throws is modelled by a caller-supplied set
    of broken ids; every send attempt is recorded in a log so that the contracts can
    say who was sent what, in which order. */
module Sessions {

  type SocketId = nat

  /** One call of `session.send(message)`; `ok` is false when the call threw. */
  datatype Send = Send(to: SocketId, message: string, ok: bool)

  /** The observable steps of `connect`, in the order they happen. */
  datatype Step =
    | Accepted(socket: SocketId)
    | Registered(socket: SocketId)
    | HookCalled(socket: SocketId, registry: seq<SocketId>)
    | ListenerAttached(socket: SocketId)

  /** `r` can be obtained from `s` by deleting entries, keeping the order of the rest. */
  ghost predicate IsSubsequence(r: seq<SocketId>, s: seq<SocketId>)
    decreases |s|
  {
    if r == [] then true
    else if s == [] then false
    else (r[|r| - 1] == s[|s| - 1] && IsSubsequence(r[..|r| - 1], s[..|s| - 1]))
         || IsSubsequence(r, s[..|s| - 1])
  }

  /** The registry after `sessions.filter((w) => w !== websocket)`. */
  function Without(s: seq<SocketId>, w: SocketId): (r: seq<SocketId>)
    ensures w !in r
    ensures forall x {:trigger multiset(r)[x]} :: x != w ==> multiset(r)[x] == multiset(s)[x]
    ensures |r| == |s| - multiset(s)[w]
    ensures IsSubsequence(r, s)
  {
    if s == [] then []
    else
      var init, last := s[..|s| - 1], s[|s| - 1];
      assert s == init + [last];
      var rest := Without(init, w);
      if last == w then rest
      else
        assert (rest + [last])[..|rest|] == rest;
        rest + [last]
  }

  /** The registry after a broadcast from `origin`: the origin is always kept,
      every other socket is kept exactly when its send did not throw. */
  function Survivors(s: seq<SocketId>, origin: SocketId, broken: set<SocketId>): (r: seq<SocketId>)
    ensures forall x {:trigger multiset(r)[x]} :: multiset(r)[x] == if x == origin || x !in broken then multiset(s)[x] else 0
    ensures |r| <= |s|
    ensures IsSubsequence(r, s)
  {
    if s == [] then []
    else
      var init, last := s[..|s| - 1], s[|s| - 1];
      assert s == init + [last];
      var rest := Survivors(init, origin, broken);
      if last == origin || last !in broken then
        assert (rest + [last])[..|rest|] == rest;
        rest + [last]
      else rest
  }

  /** The sockets a broadcast from `origin` reaches: every registered socket other
      than the origin whose send did not throw, in registry order. */
  function Delivered(s: seq<SocketId>, origin: SocketId, broken: set<SocketId>): (r: seq<SocketId>)
    ensures origin !in r
    ensures forall x {:trigger multiset(r)[x]} :: multiset(r)[x] == if x != origin && x !in broken then multiset(s)[x] else 0
    ensures IsSubsequence(r, s)
  {
    if s == [] then []
    else
      var init, last := s[..|s| - 1], s[|s| - 1];
      assert s == init + [last];
      var rest := Delivered(init, origin, broken);
      if last != origin && last !in broken then
        assert (rest + [last])[..|rest|] == rest;
        rest + [last]
      else rest
  }

  /** The sends a broadcast from `origin` attempts: one per registered socket other
      than the origin, in registry order, each carrying the message unchanged. */
  function Attempts(s: seq<SocketId>, origin: SocketId, message: string, broken: set<SocketId>): (r: seq<Send>)
    ensures |r| == |s| - multiset(s)[origin]
    ensures forall a :: a in r ==> a.to in s && a.to != origin && a.message == message && a.ok == (a.to !in broken)
  {
    if s == [] then []
    else
      var init, last := s[..|s| - 1], s[|s| - 1];
      assert s == init + [last];
      var rest := Attempts(init, origin, message, broken);
      if last == origin then rest
      else rest + [Send(last, message, last !in broken)]
  }

  /** The i-th send of a broadcast goes to the i-th registered socket other than the
      origin: each of them is tried exactly once, in registry order. */
  lemma {:induction false} AttemptsFollowRegistry(s: seq<SocketId>, origin: SocketId, message: string, broken: set<SocketId>)
    ensures |Attempts(s, origin, message, broken)| == |Without(s, origin)|
    ensures forall i :: 0 <= i < |Without(s, origin)| ==>
              Attempts(s, origin, message, broken)[i] == Send(Without(s, origin)[i], message, Without(s, origin)[i] !in broken)
  {
    if s != [] {
      var init := s[..|s| - 1];
      AttemptsFollowRegistry(init, origin, message, broken);
    }
  }

  /** Disconnecting keeps exactly the other registered sockets. */
  lemma WithoutMembers(s: seq<SocketId>, w: SocketId)
    ensures forall x :: x in Without(s, w) <==> x in s && x != w
  {
  }

  /** A broadcast keeps exactly the registered origin and the registered sockets
      whose send did not throw; it never adds a socket. */
  lemma SurvivorsMembers(s: seq<SocketId>, origin: SocketId, broken: set<SocketId>)
    ensures forall x :: x in Survivors(s, origin, broken) <==> x in s && (x == origin || x !in broken)
  {
  }

  /** A broadcast reaches exactly the registered sockets other than the origin
      whose send did not throw. */
  lemma DeliveredMembers(s: seq<SocketId>, origin: SocketId, broken: set<SocketId>)
    ensures forall x :: x in Delivered(s, origin, broken) <==> x in s && x != origin && x !in broken
  {
  }

  /** Removing a socket that is not registered changes nothing. */
  lemma {:induction false} WithoutAbsent(s: seq<SocketId>, w: SocketId)
    requires w !in s
    ensures Without(s, w) == s
  {
    if s != [] {
      var init := s[..|s| - 1];
      assert s == init + [s[|s| - 1]];
      WithoutAbsent(init, w);
    }
  }

  /** Disconnecting twice is the same as disconnecting once. */
  lemma {:induction false} WithoutIdempotent(s: seq<SocketId>, w: SocketId)
    ensures Without(Without(s, w), w) == Without(s, w)
  {
    WithoutAbsent(Without(s, w), w);
  }

  /** Disconnecting a socket right after connecting it restores the registry. */
  lemma DisconnectUndoesConnect(s: seq<SocketId>, w: SocketId)
    requires w !in s
    ensures Without(s + [w], w) == s
  {
    assert (s + [w])[..|s|] == s;
    WithoutAbsent(s, w);
  }

  /** Filtering a registry extended by one socket extends the filtered registry. */
  lemma WithoutSnoc(s: seq<SocketId>, x: SocketId, w: SocketId)
    ensures Without(s + [x], w) == Without(s, w) + (if x == w then [] else [x])
  {
    assert (s + [x])[..|s|] == s;
  }

  /** Two disconnects give the same registry in either order. */
  lemma {:induction false} WithoutCommutes(s: seq<SocketId>, a: SocketId, b: SocketId)
    ensures Without(Without(s, a), b) == Without(Without(s, b), a)
  {
    if s != [] {
      var init, last := s[..|s| - 1], s[|s| - 1];
      assert s == init + [last];
      WithoutCommutes(init, a, b);
      WithoutSnoc(init, last, a);
      WithoutSnoc(init, last, b);
      WithoutSnoc(Without(init, a), last, b);
      WithoutSnoc(Without(init, b), last, a);
    }
  }

  /** The sockets reached are the survivors other than the origin. */
  lemma {:induction false} DeliveredAreSurvivorsButOrigin(s: seq<SocketId>, origin: SocketId, broken: set<SocketId>)
    ensures Delivered(s, origin, broken) == Without(Survivors(s, origin, broken), origin)
  {
    if s != [] {
      var init, last := s[..|s| - 1], s[|s| - 1];
      DeliveredAreSurvivorsButOrigin(init, origin, broken);
      var rest := Survivors(init, origin, broken);
      if last == origin || last !in broken {
        assert (rest + [last])[..|rest|] == rest;
      }
    }
  }

  /** The sockets reached are exactly the targets of the sends that did not throw. */
  lemma {:induction false} DeliveredAreSuccessfulSends(s: seq<SocketId>, origin: SocketId, message: string, broken: set<SocketId>)
    ensures Delivered(s, origin, broken) == SuccessfulTargets(Attempts(s, origin, message, broken))
  {
    if s != [] {
      var init, last := s[..|s| - 1], s[|s| - 1];
      DeliveredAreSuccessfulSends(init, origin, message, broken);
      var rest := Attempts(init, origin, message, broken);
      if last != origin {
        assert (rest + [Send(last, message, last !in broken)])[..|rest|] == rest;
      }
    }
  }

  /** The targets of the sends that did not throw, in order. */
  function SuccessfulTargets(sends: seq<Send>): (r: seq<SocketId>)
    ensures forall x {:trigger x in r} :: x in r <==> exists i :: 0 <= i < |sends| && sends[i].ok && sends[i].to == x
  {
    if sends == [] then []
    else
      var init, last := sends[..|sends| - 1], sends[|sends| - 1];
      var rest := SuccessfulTargets(init);
      assert forall i :: 0 <= i < |init| ==> init[i] == sends[i];
      if last.ok then rest + [last.to] else rest
  }

  /** When no send throws, a broadcast keeps the registry as it was. */
  lemma {:induction false} SurvivorsAllHealthy(s: seq<SocketId>, origin: SocketId, broken: set<SocketId>)
    requires forall x :: x in s && x != origin ==> x !in broken
    ensures Survivors(s, origin, broken) == s
  {
    if s != [] {
      var init := s[..|s| - 1];
      assert s == init + [s[|s| - 1]];
      SurvivorsAllHealthy(init, origin, broken);
    }
  }

  /** Broadcasting again over the same broken sockets drops nothing more. */
  lemma {:induction false} SurvivorsIdempotent(s: seq<SocketId>, origin: SocketId, broken: set<SocketId>)
    ensures Survivors(Survivors(s, origin, broken), origin, broken) == Survivors(s, origin, broken)
  {
    SurvivorsMembers(s, origin, broken);
    SurvivorsAllHealthy(Survivors(s, origin, broken), origin, broken);
  }

  /** Each specification function of a broadcast extends by one entry when the registry does. */
  lemma BroadcastStep(s: seq<SocketId>, x: SocketId, origin: SocketId, message: string, broken: set<SocketId>)
    ensures Survivors(s + [x], origin, broken)
            == Survivors(s, origin, broken) + (if x == origin || x !in broken then [x] else [])
    ensures Delivered(s + [x], origin, broken)
            == Delivered(s, origin, broken) + (if x != origin && x !in broken then [x] else [])
    ensures Attempts(s + [x], origin, message, broken)
            == Attempts(s, origin, message, broken) + (if x != origin then [Send(x, message, x !in broken)] else [])
  {
  }

  /** Appending one send to a log already extended by a batch of sends; kept as a
      lemma of its own so that the broadcast loop does not have to prove it. */
  lemma AppendAssociates(a: seq<Send>, b: seq<Send>, x: Send)
    ensures a + (b + [x]) == a + b + [x]
  {
  }

  /** The state captured by `createSessions()`: the `sessions` list, plus the parts
      of the runtime the registry acts on (fresh sockets, listeners, sends, closes). */
  class SessionRegistry {
    /** The registered sockets, in registration order. */
    var sessions: seq<SocketId>
    /** Every socket created so far has an id below `next`. */
    var next: SocketId
    /** Sockets whose message listener has been attached. */
    var listening: set<SocketId>
    /** Every send attempted so far, in order. */
    var sent: seq<Send>
    /** Every `close()` call so far, in order. */
    var closed: seq<SocketId>

    ghost predicate Valid()
      reads this
    {
      && (forall x :: x in sessions ==> x < next)
      && (forall x :: x in listening ==> x < next)
    }

    /** `createSessions()`: a new registry is empty. */
    constructor ()
      ensures Valid()
      ensures sessions == [] && listening == {} && sent == [] && closed == []
    {
      sessions := [];
      next := 0;
      listening := {};
      sent := [];
      closed := [];
    }

    /** `disconnect(websocket)`: drop every occurrence of the socket, then close it. */
    method Disconnect(w: SocketId)
      requires Valid()
      modifies this
      ensures Valid()
      ensures sessions == Without(old(sessions), w)
      ensures closed == old(closed) + [w]
      ensures next == old(next) && listening == old(listening) && sent == old(sent)
    {
      WithoutMembers(sessions, w);
      sessions := Without(sessions, w);
      closed := closed + [w];
    }

    /** `connect({onConnect, onMessage})`: accept a new socket, register it, run the
        hook if there is one, attach the message listener, answer with status 101. */
    method Connect(hasOnConnect: bool) returns (socket: SocketId, status: int, trace: seq<Step>)
      requires Valid()
      modifies this
      ensures Valid()
      ensures socket == old(next) && socket !in old(sessions) && socket !in old(listening)
      ensures next == old(next) + 1
      ensures sessions == old(sessions) + [socket]
      ensures listening == old(listening) + {socket}
      ensures sent == old(sent) && closed == old(closed)
      ensures status == 101
      ensures trace == [Accepted(socket), Registered(socket)]
                       + (if hasOnConnect then [HookCalled(socket, sessions)] else [])
                       + [ListenerAttached(socket)]
    {
      socket := next;
      next := next + 1;
      trace := [Accepted(socket)];
      sessions := sessions + [socket];
      trace := trace + [Registered(socket)];
      if hasOnConnect {
        trace := trace + [HookCalled(socket, sessions)];
      }
      listening := listening + {socket};
      trace := trace + [ListenerAttached(socket)];
      status := 101;
    }

    /** `broadcast(origin, message)`: the `sessions.filter` callback runs over the
        registry in order; the origin is kept without a send, every other socket is
        sent the message and kept exactly when the send does not throw. */
    method Broadcast(origin: SocketId, message: string, broken: set<SocketId>) returns (delivered: seq<SocketId>)
      requires Valid()
      modifies this
      ensures Valid()
      ensures sessions == Survivors(old(sessions), origin, broken)
      ensures sent == old(sent) + Attempts(old(sessions), origin, message, broken)
      ensures delivered == Delivered(old(sessions), origin, broken)
      ensures next == old(next) && listening == old(listening) && closed == old(closed)
    {
      ghost var attempts: seq<Send> := [];
      var kept: seq<SocketId> := [];
      delivered := [];
      var i := 0;
      while i < |sessions|
        modifies this`sent
        invariant 0 <= i <= |sessions|
        invariant sent == old(sent) + attempts
        invariant kept == Survivors(sessions[..i], origin, broken)
        invariant delivered == Delivered(sessions[..i], origin, broken)
        invariant attempts == Attempts(sessions[..i], origin, message, broken)
      {
        var session := sessions[i];
        assert sessions[..i + 1] == sessions[..i] + [session];
        BroadcastStep(sessions[..i], session, origin, message, broken);
        if session == origin {
          kept := kept + [session];
        } else {
          var ok := session !in broken;
          var send := Send(session, message, ok);
          AppendAssociates(old(sent), attempts, send);
          attempts := attempts + [send];
          sent := sent + [send];
          if ok {
            kept := kept + [session];
            delivered := delivered + [session];
          }
        }
        i := i + 1;
      }
      assert sessions[..i] == sessions;
      SurvivorsMembers(sessions, origin, broken);
      sessions := kept;
    }
  }
}
