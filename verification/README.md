# Position relay: registry, fan-out and client reconciliation

This project models the bookkeeping inside a small multiplayer position relay.

**The server.** A TCP server gives each accepted connection an id from a counter. The counter starts at 1 and is bumped with a wrapping `fetch_add`. The server keeps two maps under one mutex:
- `clients`: the outbound channel of each open connection;
- `positions`: the last position each connection reported.

When a connection arrives, the server:
1. registers it;
2. writes `Welcome` to it directly;
3. writes one `Position` for every other connection's stored position (the join-time snapshot);
4. only then starts a writer thread that drains the channel onto the stream.

Each later line from the connection is processed like this:
- it is trimmed;
- blank lines and lines that do not decode are skipped;
- a position report overwrites the sender's entry in `positions`;
- the report is queued on every other open connection's channel.

When the stream ends, the connection is removed from both maps and `PlayerLeft` is queued on every connection still open.

**The client.** It drains the decoded server messages in arrival order:
- `Welcome` sets its own id;
- `Position` upserts a remote player, unless the report is about itself;
- `PlayerLeft` removes a remote player.

**Modules:**
- `Protocol` (protocol.dfy): ids as `u32`, an opaque coordinate type, both message enums, Rust's `trim_end`, and the classification of one read line.
- `Ids` (ids.dfy): the wrapping id counter and which ids it has handed out.
- `Fanout` (fanout.dfy): the `filter_map` over a `HashMap` that both the snapshot and the recipient list use. The iteration order of the `HashMap` is left unspecified.
- `Registry` (registry.dfy): `SharedState` as a value, with every locked region as a function. It also holds one session's reader loop, in two forms: as written, and with teardown on read errors.
- `Bookkeeping` (bookkeeping.dfy): the server's invariant, with one lemma per step showing that the step keeps it.
- `Server` (server.dfy): class `Relay`, which updates the fields in place. Each method is proved against the `Registry` function it implements.
- `Client` (client.dfy): the single-message step, its fold, and class `ClientState` with the drain loop.
- `Catchup` (catchup.dfy): connects the two ends. A client that reads what the server writes on join ends up with exactly the server's other positions.

The decoder for client lines is a parameter: any function from a line to an optional message. The results of successive `read_line` calls are a sequence given as input.

## Model

| member | source | states |
|---|---|---|
| Protocol.TrimEnd | src/bin/server.rs:102 | The result is a prefix of the line. Everything removed is Unicode whitespace. The result does not end in whitespace. |
| Protocol.Classify | src/bin/server.rs:102-113 | A line is blank exactly when it is all whitespace. It is malformed exactly when it is not blank and its trimmed form does not decode. Otherwise it carries the decoded position. |
| Ids.WrappingIncrement | src/bin/server.rs:52 | `fetch_add(1)` on a `u32`: adds one below 2^32-1 and wraps 2^32-1 to 0. |
| Ids.NthId | src/bin/server.rs:45-52 | The id of the connection accepted after n others is n+1, and 0 for the (2^32)th accept. |
| Ids.CounterAfter | src/bin/server.rs:45-52 | The counter starts at 1. Bumping the counter after n accepts gives the id of accept n+1. |
| Ids.NthIdDistinct | src/bin/server.rs:52 | Before the counter goes round, different accepts get different ids. |
| Ids.FreshId | src/bin/server.rs:52 | The next id differs from every id handed out before. |
| Ids.IssuedCount | src/bin/server.rs:52 | n accepts hand out n distinct ids. |
| Ids.IssuedIff | src/bin/server.rs:45-52 | Before the counter goes round, the ids handed out by n accepts are exactly 1..n. |
| Ids.IdReusedAfterWrap | src/bin/server.rs:52 | After 2^32 accepts the counter gives out id 1 again, and the accept before that gets id 0. |
| Fanout.Others | src/bin/server.rs:188-194 | Recipient selection: an id is selected exactly when it is present and is not the excluded one. The count is one fewer exactly when the excluded id is present. |
| Fanout.CollectExcept | src/bin/server.rs:143-156 | The collected entries have exactly the selected ids. Each id appears once, with its value from the map. The order is left open, as with `HashMap` iteration. |
| Registry.Empty | src/bin/server.rs:46 | `SharedState::default()`: no open connection and no position. Stated by Server.Relay.constructor. |
| Registry.Register | src/bin/server.rs:76 | Stated by Registry.RegisterEffect and Registry.RegisterUnregister. |
| Registry.SetPosition | src/bin/server.rs:118 | Stated by Registry.SetPositionEffect. |
| Registry.Unregister | src/bin/server.rs:129-130 | Stated by Registry.UnregisterEffect, Registry.UnregisterCount and Registry.RegisterUnregister. |
| Registry.Broadcast | src/bin/server.rs:178-200 | Stated by Registry.BroadcastEffect, using Fanout.Others for the recipients. |
| Registry.HandleLine | src/bin/server.rs:102-124 | Stated by Registry.HandleLineEffect and Registry.SkippedLineChangesNothing. |
| Registry.Teardown | src/bin/server.rs:127-133 | Stated by Registry.TeardownEffect and Registry.TeardownExcludeIrrelevant. |
| Registry.IngressAsWritten | src/bin/server.rs:93-133 | The reader loop as written, where a read error leaves before the teardown. Stated by Registry.ReadErrorLeaksAsWritten. |
| Registry.Ingress | src/bin/server.rs:93-133 | The corrected reader loop, which tears down on a read error as well. Stated by Registry.IngressEffect and Registry.IngressEndsOnStreamEnd. |
| Registry.SnapshotMessages | src/bin/server.rs:158-167 | One `Position` per snapshot entry, in snapshot order, each carrying that entry's id and coordinates. |
| Registry.RegisterEffect | src/bin/server.rs:74-77 | Registering a new id adds exactly one open connection with an empty channel. Every other channel is kept, and positions are untouched, so the newcomer has none. Positions stay a subset of the open connections. |
| Registry.RegisterUnregister | src/bin/server.rs:74-77 | Unregistering a connection just registered gives back the original registry. |
| Registry.UnregisterEffect | src/bin/server.rs:127-131 | The id leaves both maps in one step. Every other channel and position is unchanged. Removing an absent id changes nothing. |
| Registry.UnregisterCount | src/bin/server.rs:127-131 | The number of open connections drops by one exactly when the id was open. |
| Registry.SetPositionEffect | src/bin/server.rs:115-119 | The sender's position is replaced wholesale, and a second report overwrites the first. No other position and no channel changes. |
| Registry.BroadcastEffect | src/bin/server.rs:183-200 | Every open connection except the excluded one gets the message appended. The excluded connection's channel, the set of open connections and the positions are unchanged. |
| Registry.RegisteredBeforeSnapshot | src/bin/server.rs:74-83 | A connection is registered before its snapshot is read. So a position relayed in between lands in its channel. |
| Registry.TeardownExcludeIrrelevant | src/bin/server.rs:127-133 | The `PlayerLeft` broadcast excludes the leaving id. That id is already removed, so this equals excluding no one. |
| Registry.TeardownEffect | src/bin/server.rs:127-133 | After teardown the id is in neither map, every other position is kept as it was, and every remaining channel has exactly one `PlayerLeft` appended. |
| Registry.SkippedLineChangesNothing | src/bin/server.rs:102-113 | A blank or undecodable line leaves the registry unchanged: no store and no broadcast. |
| Registry.HandleLineEffect | src/bin/server.rs:115-124 | A position line sets only the sender's position and appends the relay to every other open channel. It never echoes to the sender, and it opens or closes no connection. |
| Registry.IngressEffect | src/bin/server.rs:93-133 | While the session is open, the open set and the sender's own channel are unchanged. Once it has ended, the id is gone from both maps and every remaining channel ends in `PlayerLeft`. Either way, no other connection's position changes. |
| Registry.IngressEndsOnStreamEnd | src/bin/server.rs:95-100 | A session whose input reaches the end of the stream or an error ends closed. |
| Registry.ReadErrorLeaksAsWritten | src/bin/server.rs:97 | As written, a read error leaves the id registered, with its position visible to later joiners and no `PlayerLeft` sent. The corrected loop removes it. |
| Server.Relay.constructor | src/bin/server.rs:45-46 | The registry starts empty, no stream has been written, and the counter starts at 1. |
| Server.Relay.Accept | src/bin/server.rs:52 | Returns the counter's value and bumps it with wrap-around. The id has not been handed out before, has never been registered and is not open. |
| Server.Relay.Register | src/bin/server.rs:74-77 | The registry becomes `Registry.Register` of the old one, and the invariant is kept. An id is registered at most once, so an id torn down is never registered again. |
| Server.Relay.Join | src/bin/server.rs:79-91 | The new stream holds `Welcome` first, then exactly the other connections' positions, once each with their stored values. Other streams are unchanged. |
| Server.Relay.SendExistingPositions | src/bin/server.rs:138-169 | The snapshot holds every position except the joiner's, once each, with its value. What is written is one `Position` per entry, in order. |
| Server.Relay.WriteQueued | src/bin/server.rs:85-91 | The writer thread writes the oldest queued message. The stream followed by the channel is unchanged, so delivery is FIFO. |
| Server.Relay.Broadcast | src/bin/server.rs:178-200 | The new registry is `Registry.Broadcast` of the old one. |
| Server.Relay.SendAll | src/bin/server.rs:198-200 | Each listed recipient's channel gets the message appended once. No other channel changes. |
| Server.Relay.OnLine | src/bin/server.rs:102-124 | Returns the line's classification, moves the registry by `Registry.HandleLine`, and keeps the invariant. |
| Server.Relay.Teardown | src/bin/server.rs:127-133 | The registry becomes `Registry.Teardown` of the old one, the connection's stream is no longer tracked, and the invariant is kept. |
| Server.Relay.Serve | src/bin/server.rs:93-133 | This is the corrected loop: a read error tears down, unlike src/bin/server.rs:97 (see ## Findings). The reader loop ends in the state and outcome given by `Registry.Ingress`. The stream set is unchanged while the connection is open and loses only this connection once it closes. |
| Client.Initial | src/sketch.rs:43-51 | No player id and no remote players. Stated by Client.ClientState.constructor. |
| Client.Apply | src/sketch.rs:224-237 | Stated by Client.WelcomeEffect, Client.PositionEffect, Client.PlayerLeftEffect and Client.ApplyIdempotent. |
| Client.ApplyAll | src/sketch.rs:223-238 | Stated by Client.ApplyAllAppend, Client.SelfNeverListed and Client.ClientState.ProcessNetworkMessages. |
| Client.WelcomeEffect | src/sketch.rs:225-227 | `Welcome` sets the player id and leaves the remote players unchanged. |
| Client.PositionEffect | src/sketch.rs:228-233 | A report about the local player changes nothing. Any other report replaces that player's entry wholesale and leaves the rest alone. Before any `Welcome`, every report is stored. |
| Client.PlayerLeftEffect | src/sketch.rs:234-236 | Exactly that entry is removed; the rest and the player id stay. An absent id is a no-op. |
| Client.ApplyIdempotent | src/sketch.rs:224-237 | Applying the same message twice equals applying it once. |
| Client.ApplyAllAppend | src/sketch.rs:223-238 | Draining in two batches equals draining once: the final state is the left fold over everything received. |
| Client.RepeatedMessageHarmless | src/sketch.rs:223-238 | A message that arrives twice in a row has the effect of one. |
| Client.SelfNeverListed | src/sketch.rs:228-233 | Once the player id is known, the client never lists itself as a remote player, as long as no new `Welcome` arrives. |
| Client.ClientState.constructor | src/sketch.rs:43-51 | No player id and no remote players; the network handle is kept. |
| Client.ClientState.ProcessNetworkMessages | src/sketch.rs:218-239 | Without a network nothing changes. Otherwise the queue is emptied, and the state is the left fold of the single-message step over it, in arrival order. |
| Catchup.CatchUp | src/bin/server.rs:79-83 | A fresh client reads `Welcome` and then the snapshot. It then knows its id and holds exactly the server's positions of every other player. |
| Catchup.CaughtUpClientNeverListsItself | src/sketch.rs:228-233 | After the catch-up, and whatever relayed traffic follows, the client keeps its id and never lists itself. |

## Left out

- Threads, the mutex, the atomic counter's memory ordering and the `mpsc` channels:
  - each locked region, and each broadcast's recipient copy with its sends, is one atomic method;
  - each channel is a sequence;
  - interleavings between a broadcast's recipient copy and its sends are not modelled.
- Messages still in a departed connection's channel, and that connection's writer thread: the model stops tracking its stream at teardown.
- TCP I/O:
  - `read_line` results are an input sequence;
  - the stream's written messages are a sequence;
  - write and flush errors, which `send_direct` and the writer thread ignore or end on, are not modelled;
  - a failing `try_clone` at the start of `handle_client` is not modelled.
- JSON encoding and decoding:
  - decoding is an arbitrary partial function;
  - encoding a `ServerMessage` is taken never to fail, so the early return in `broadcast_json` is not modelled.
- `f32` coordinates are opaque, since nothing here computes with them.
- Client code outside the reconciliation is not modelled:
  - rendering, keyboard input and movement;
  - the `running`, `player_pos` and `player_radius` fields;
  - the network connect with its reader and writer threads.
- Catchup.CatchUp: takes every message the server writes to reach the client's channel decoded as written. The client's reader thread drops a line it cannot decode, for example a position the server stored as a non-finite `f32` and encoded as `null`; floats and JSON are outside this model.
- The client drain takes everything waiting when it starts. Messages that arrive during the drain belong to the next call.
- dumb_client.rs is not part of this model.
- Server.Relay.Accept: requires fewer than 2^32 accepts so far. Beyond that the counter reuses ids, which Ids.IdReusedAfterWrap exhibits.
- Server.Relay.Register: requires the id never to have been registered. This holds for every id `Accept` hands out before the counter wraps.
- Server.Relay.Join: what a joined stream starts with is kept as an invariant only as far as its first message, `Welcome`. The full greeting is stated by Join's own postcondition.
- The order of the snapshot and of the recipients is left unspecified, since it is `HashMap` iteration order.
- The teardown broadcast follows the code and excludes the leaving id. Registry.TeardownExcludeIrrelevant shows this equals excluding no one.

## Findings

| source | as written | input that shows it | evidently intended | confidence | as-written member | corrected member |
|---|---|---|---|---|---|---|
| src/bin/server.rs:97 | `read_line(..)?` returns the error from `handle_client` before the teardown at lines 127-133. | A connection that is reset, or that sends a line that is not valid UTF-8, after reporting a position. | Every way out of the read loop unregisters the id and broadcasts `PlayerLeft`. As written, the id stays in `clients` and `positions`, later joiners are sent its stale position, and nobody is told it left. | not executed | Registry.IngressAsWritten (shown by Registry.ReadErrorLeaksAsWritten) | Registry.Ingress (Registry.IngressEffect, Registry.IngressEndsOnStreamEnd, used by Server.Relay.Serve) |
