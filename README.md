# Turtle race room relay — a Dafny model

This project models the server side of the turtle race game's rooms and the client's
turtle-colour check.

- **Session registry** (`createSessions`, durable_objects/helpers.ts). This is an ordered
  list of live websockets, updated in place by three operations. `connect` accepts a new
  socket, appends it, runs an optional `onConnect` hook, attaches the message listener and
  answers with status 101. `disconnect` filters a socket out and closes it. `broadcast`
  sends a message to every socket except the origin and filters out every socket whose
  `send` throws. Module `Sessions`, file `sessions.dfy`: a class `SessionRegistry` whose
  methods are proved against specification functions (`Without`, `Survivors`, `Delivered`,
  `Attempts`), with lemmas about those functions.
- **Relay actor** (`TurtleGame`, durable_objects/turtle-game.ts). One registry per room.
  Every websocket request is connected without a hook, and every message received on a
  socket is broadcast from that socket. Module `Relay`, file `turtle_game.dfy`.
- **Turtle colours** (`turtles`, `isTurtle`, web/app/helpers/turtle.ts). These are the five
  colour names and the exact-membership type guard. Module `Turtles`, file `turtle.dfy`:
  the `Turtle` union as a datatype, `IsTurtle`, and a decoder `Parse` from a name to a turtle.

How the runtime is abstracted:

- Sockets are natural-number ids. `new WebSocketPair()` yields a socket never seen before;
  the registry models this with a counter `next`, so a new socket is never already
  registered.
- A `send` that throws is modelled by a caller-supplied set `broken` of sockets whose
  send fails.
- Every attempted send is appended to a log `sent` of `Send(to, message, ok)` records.
  Every `close()` is appended to a log `closed`. The sockets with a message listener are
  kept in `listening`.
- The order of the steps of `connect` is returned as a trace of `Step` values. A
  `HookCalled` step carries the registry as the hook sees it.

## Model

| member | source | states |
|---|---|---|
| `Sessions.SessionRegistry.constructor` | durable_objects/helpers.ts:36-37 | a new registry is empty, with no listeners, sends or closes |
| `Sessions.SessionRegistry.Connect` | durable_objects/helpers.ts:44-63 | the new socket is fresh and is appended at the end, with every earlier entry kept in order; nothing is sent or closed; the status is 101; the trace is accept, register, hook (seeing the socket already registered), attach listener, and the hook step appears only when a hook is given |
| `Sessions.SessionRegistry.Disconnect` | durable_objects/helpers.ts:39-42 | the registry becomes `Without(old registry, w)` and `w` is closed; nothing is sent |
| `Sessions.SessionRegistry.Broadcast` | durable_objects/helpers.ts:64-74 | the registry becomes `Survivors`; the sends attempted are exactly `Attempts`; the sockets reached are `Delivered`; listeners and closes are untouched |
| `Sessions.Without` | durable_objects/helpers.ts:40 | the result has no occurrence of `w`, keeps every other socket with its multiplicity, is an order-preserving subsequence of the registry, and its length is the registry's minus the occurrences of `w` |
| `Sessions.WithoutMembers` | durable_objects/helpers.ts:40 | after disconnecting `w`, a socket is registered iff it was registered before and is not `w` |
| `Sessions.WithoutAbsent` | durable_objects/helpers.ts:40 | disconnecting a socket that is not registered leaves the registry unchanged |
| `Sessions.WithoutIdempotent` | durable_objects/helpers.ts:39-42 | disconnecting the same socket twice gives the same registry as once |
| `Sessions.WithoutCommutes` | durable_objects/helpers.ts:40 | two disconnects give the same registry in either order |
| `Sessions.DisconnectUndoesConnect` | durable_objects/helpers.ts:39-56 | appending a fresh socket (connect) and then filtering it out (disconnect) restores the registry exactly |
| `Sessions.Survivors` | durable_objects/helpers.ts:65-73 | after a broadcast, each socket keeps its multiplicity if it is the origin or its send did not throw, and otherwise has none; the registry never grows and stays an order-preserving subsequence; so every occurrence of the origin stays |
| `Sessions.SurvivorsMembers` | durable_objects/helpers.ts:65-73 | after a broadcast, a socket is registered iff it was registered before and is the origin or its send did not throw |
| `Sessions.SurvivorsAllHealthy` | durable_objects/helpers.ts:65-73 | when no non-origin send throws, a broadcast leaves the registry exactly as it was |
| `Sessions.SurvivorsIdempotent` | durable_objects/helpers.ts:65-73 | a second broadcast with the same failing sockets drops nothing more |
| `Sessions.Delivered` | durable_objects/helpers.ts:65-72 | the sockets reached never include the origin; each registered non-origin socket whose send does not throw is reached as often as it is registered, and in registry order |
| `Sessions.DeliveredMembers` | durable_objects/helpers.ts:65-72 | a socket is reached iff it is registered, is not the origin, and its send does not throw |
| `Sessions.DeliveredAreSurvivorsButOrigin` | durable_objects/helpers.ts:65-73 | the sockets reached are exactly the surviving registry with the origin removed |
| `Sessions.Attempts` | durable_objects/helpers.ts:65-69 | one send is attempted per registered non-origin entry; each targets a registered socket other than the origin, carries the message unchanged, and fails exactly when its target is broken |
| `Sessions.AttemptsFollowRegistry` | durable_objects/helpers.ts:65-69 | the i-th attempted send goes to the i-th registered non-origin entry: each is tried exactly once, in registry order |
| `Sessions.DeliveredAreSuccessfulSends` | durable_objects/helpers.ts:67-71 | the sockets reached are exactly the targets of the sends that did not throw, in order |
| `Relay.TurtleGame.constructor` | durable_objects/turtle-game.ts:7-10 | a new game owns a fresh, empty registry that has sent nothing |
| `Relay.TurtleGame.Websocket` | durable_objects/turtle-game.ts:12-18 | each call registers exactly one socket, never created before, at the end of the registry, attaches its listener while keeping every earlier one, and answers 101; with no hook, connecting sends nothing to anyone |
| `Relay.TurtleGame.OnMessage` | durable_objects/turtle-game.ts:14-16 | a message on `s` reaches exactly the other registered sockets whose send does not throw; every send carries the message unchanged and none goes to `s`; the registry becomes exactly the old one minus the other sockets whose send threw (so it only shrinks, order is kept, and `s` keeps all its entries); nothing is closed and no socket is created |
| `Turtles.TurtleNamesListEachTurtleOnce` | web/app/helpers/turtle.ts:3 | the constant `TurtleNames` (`turtles`) has five pairwise distinct entries: blue, red, green, purple, yellow, in that order |
| `Turtles.IsTurtle` | web/app/helpers/turtle.ts:5-6 | `isTurtle(s)` is true iff `s` is exactly one of the five names |
| `Turtles.Parse` | web/app/helpers/turtle.ts:5-6 | decoding succeeds iff `isTurtle` holds, and the decoded turtle's name is the input |
| `Turtles.ParseName` | web/app/helpers/turtle.ts:3-6 | decoding the name of any turtle gives that turtle back |
| `Turtles.IsTurtleExactlyNames` | web/app/helpers/turtle.ts:5-6 | the guard accepts exactly the names of the `Turtle` union |
| `Turtles.EveryListedNameIsTurtle` | web/app/helpers/turtle.ts:3-6 | every entry of `turtles` passes `isTurtle` |
| `Turtles.NearMissesAreRejected` | web/app/helpers/turtle.ts:6 | matching is exact: "Red", "", "any" and "blue " are rejected |

## Left out

- The `onConnect` hook's own effects. `Connect` only records when the hook runs and the registry it sees. The hook may send, broadcast or await, and those effects are not modelled. `TurtleGame` passes no hook.
- `await` and asynchrony: each handler runs to completion as one sequential step, matching the single-threaded dispatch the runtime gives one actor.
- The client end of the `WebSocketPair` (`pair[0]`) in the 101 response is not modelled, only the status code. `accept()` appears only as a trace step.
- Messages arriving on a socket without a listener are not ruled out. `broadcast` behaves the same for any origin, so the relay's contracts need no such restriction.
- `createInit` and `DurableObjectTemplate.fetch` (durable_objects/helpers.ts:10-34, 78-87): these are a stub RPC and a reflective method dispatch over runtime calls.
- durable_objects/worker.ts is not part of this model: it is HTTP routing (422 on a missing id, 400 on a non-upgrade request).
- The React components, routes and hooks, web/app/helpers/form.ts and web/app/helpers/socket.ts are not part of this model: they are UI, I/O and JSON wrapping.
- Game rules (deck, dealing, board movement, turns, winners, room lifecycle): no file of the core implements them.
