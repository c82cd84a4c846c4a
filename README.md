# Node-liveness registry

A model of the node-liveness registry of ignite's cluster manager
(`state/state.go`). The registry, a `Loader`, keeps a table from `int64` node
ids to `NodeStatus` handles. A handle wraps an agent `Client` (a node address
and, once dialed, a gRPC connection) together with an `available` flag. A
per-node heartbeat keeps that flag and the connection up to date.

The model has four modules:

- `Errors` (`errors.dfy`) models Go's `error`. `Pass` stands for nil and
  `Fail(Error(message))` for a non-nil error.
- `Maps` (`maps.dfy`) holds `PutAll`, a reference definition of a
  `for ... range` loop that writes Go map entries one after another. Beside it
  are lemmas saying where each key ends up.
- `Agent` (`agent.dfy`) holds the `Client` class. The gRPC connection is
  reduced to a flag, `connected`, which stands for "`AgentServiceClient` is
  non-nil".
- `State` (`state.dfy`) holds the `NodeStatus` and `Loader` classes, the
  inventory rows, and the heartbeat stream as a sequence of receive outcomes.

The collaborators are parameters:

- The inventory listing (`db.GetAllNodes`) is an `Inventory` value: either
  the node rows or an error.
- `grpc.Dial` and the heartbeat subscription each become an `Outcome`
  argument.
- The heartbeat stream is the sequence of what its successive `Recv` calls
  deliver: events, then an error.
- Starting a watch goroutine (`go loader.WatchNode(ns)`) is recorded by
  appending `ns` to the ghost sequence `Loader.watched`, in launch order.

`Loader.Valid()` says that every registered status has a watch started for
it. `NodeStatus.Valid()` says that a node is available only while it has a
connection. Every operation preserves these invariants.

## Model

| member | source | states |
|---|---|---|
| `Agent.Client.constructor` | agent/agent.go:14-16 | `NewClient(address)` makes a client for that address with no connection. |
| `Agent.Client.Dial` | agent/agent.go:18-25 | Returns the dial's error unchanged. On success a connection is present afterwards; on failure the connection state is as before. |
| `State.NodeStatus.constructor` | state/state.go:32-36 | `NewNodeStatus(client)` wraps exactly that client with `available = false`, so it satisfies the availability invariant. |
| `State.FirstFailure` | state/state.go:50-59 | Gives the index of the receive that ends the heartbeat loop: that receive is an error and every earlier one delivered an event. |
| `State.NodeStatus.Heartbeat` | state/state.go:38-61 | Every path returns a non-nil error. With no connection and a failing dial, it returns the dial error and leaves the connection absent and `available` unchanged. With a connection (found or dialed) and a failing subscribe, it returns that error, keeps the connection and leaves `available` unchanged. Otherwise each event sets `available` to true, and the first receive error sets `available` to false, clears the connection and is returned; the ghost log of assignments to `available` ends in its current value. It preserves `available ==> connected`. |
| `State.Loader.constructor` | state/state.go:63-70 | The registry starts with an empty map and no watches. |
| `State.Loader.Load` | state/state.go:72-87 | A failed listing returns `"db.GetAllNodes error: " + message` and leaves the map and the watches exactly as before. A successful one returns nil and starts one watch per inventory row, in order. Each watch is on a distinct fresh status with its own fresh client (no two rows share one) for that row's address, no connection and `available = false`. Afterwards the map is the old map with those statuses written in inventory order: its keys are the old keys plus the inventory ids, a repeated id maps to the status of its last row, and keys not in the inventory keep their entries. |
| `State.Loader.GetNode` | state/state.go:98-103 | Gives the status stored under `id`, or null exactly when `id` is absent. Being a function, it changes nothing. |
| `State.Loader.DelNode` | state/state.go:105-110 | Removes exactly key `id`, so `GetNode(id)` is null afterwards. Every other entry is unchanged, deleting an absent id changes nothing, and the started watches are untouched. |
| `State.Loader.AddNode` | state/state.go:112-118 | Stores `ns` under `id`, replacing any previous entry, so `GetNode(id) == ns`. Other keys are unchanged. Exactly one new watch, for `ns`, is started, even when `id` was already present. |
| `Maps.LastIndex` | state/state.go:80-85 | Gives the position of the last occurrence of a key: the entry there is that key and no later entry is. |
| `Maps.PutAllKeys` | state/state.go:80-85 | After the loop's writes, a key is present exactly when it was present before or is one of the written ids. |
| `Maps.PutAllLastWins` | state/state.go:80-85 | A written id holds the value of its last write. |
| `Maps.PutAllRetains` | state/state.go:80-85 | An id that is never written keeps its previous entry, or stays absent. |
| `Maps.PutAllSpec` | state/state.go:80-85 | Combines the three facts above for every key at once. |

Two consequences of the code that the contracts make explicit:

- The listing fails before anything is inserted (state/state.go:76-79), so a
  failed `Load` leaves the map and the watches as they were.
- Dialing does not change `available` (state/state.go:39-43). Under
  `NodeStatus.Valid` the flag is already false whenever there is no
  connection.

## Left out

- Locking (`sync.RWMutex`) and the one-time initialisation in `GetLoader`
  (`sync.Once`). These are concurrency plumbing, so every call is modelled as
  atomic and the `Loader` constructor stands for the first `GetLoader` call.
- `WatchNode`, the unbounded retry loop that calls `Heartbeat`, reports the
  error through the loader's embedded logger and sleeps five seconds.
  `GetLoader` builds the `Loader` without that logger, so the report would
  dereference a nil pointer unless code outside these files sets it first.
  The loop never terminates and consists only of timing and I/O. The model
  records only that a watch was started (`Loader.watched`).
- The unsynchronised race between watch tasks writing `available` and callers
  reading it through `GetNode`. It is inherently concurrent. `Heartbeat`
  reports the values it assigns to `available` in its ghost result `observed`.
- The cancellable request context of the subscription and the gRPC
  stream/`Recv` mechanics. They are reduced to the `subscribe` outcome and the
  receive-outcome sequence. Event payloads are not modelled.
- `State.NodeStatus.Heartbeat`: requires that the receive sequence contains an
  error. On a stream that only ever delivers events, the source's receive
  loop never returns, and a non-terminating call is not modelled.
- `State.NodeStatus.Valid`: states only `available ==> connected`. It does not
  say that the connection is the one over which the last event arrived,
  because connections have no identity in the model.
- The package-level `agent.Dial` function and the gRPC stub construction. The
  registry does not use them; only the `Client` they describe is modelled.
- `db.GetAllNodes`. It is a database call, so it is replaced by the
  `Inventory` argument of `Load`.
- Nil pointers. A nil `*NodeStatus` passed to `AddNode`, or a nil `*Client`
  inside a status, would make the watch panic. The model's handles are
  non-null.
- 64-bit wrap-around does not arise: ids are only stored and compared, and
  `int64` is a newtype over that range.
