/** The relay server's bookkeeping, as the server updates it in place: the
    shared registry behind its mutex, the id counter, and what each
    connection's TCP stream has been sent. Every method is one locked
    region (or one step of a connection's thread), taken as atomic. */
module Server {
  import opened Protocol
  import opened Ids
  import opened Fanout
  import opened Registry
  import opened Bookkeeping

  class Relay {
    /** `SharedState.clients`: each open connection's channel, holding the
        messages queued for its writer thread. */
    var clients: map<Id, Queue>
    /** `SharedState.positions`: the last position each connection reported. */
    var positions: map<Id, PlayerPos>
    /** `next_client_id`: the id the next accepted connection gets. */
    var nextId: u32
    /** Number of connections accepted so far. */
    ghost var accepted: nat
    /** Every id that has been registered, open or since torn down:
        `handle_client` registers its id once, at its start. */
    ghost var registered: set<Id>
    /** What has been written so far to the stream of each connection
        that has joined, in order. */
    var wire: map<Id, seq<ServerMessage>>

    /** The registry as a value. */
    function State(): Shared
      reads this
    {
      Shared(clients, positions)
    }

    ghost predicate Valid()
      reads this
    {
      Invariant(State(), nextId, accepted, registered, wire)
    }

    /** `main`'s setup: an empty registry and a counter at 1. */
    constructor ()
      ensures Valid()
      ensures State() == Empty() && wire == map[]
      ensures nextId == FIRST_ID && accepted == 0 && registered == {}
    {
      clients, positions := map[], map[];
      nextId, accepted, registered := FIRST_ID, 0, {};
      wire := map[];
    }

    /** An accepted connection takes the counter's value as its id, and the
        counter is bumped with `fetch_add(1)`. With fewer than 2^32 accepts
        the id is one no connection has had before. */
    method Accept() returns (id: Id)
      requires Valid() && accepted < U32_COUNT
      modifies this`nextId, this`accepted
      ensures Valid()
      ensures id == old(nextId) && nextId == WrappingIncrement(old(nextId))
      ensures id == NthId(old(accepted)) && accepted == old(accepted) + 1
      ensures !WasIssued(id, old(accepted)) && WasIssued(id, accepted)
      ensures id !in registered && id !in clients
    {
      InvariantAccept(State(), nextId, accepted, registered, wire);
      id := nextId;
      nextId := WrappingIncrement(nextId);
      accepted := accepted + 1;
    }

    /** `state.clients.insert(client_id, tx)`: the new connection is open,
        with an empty channel and nothing written to it yet. An id is
        registered at most once, by the connection it was handed to. */
    method Register(id: Id)
      requires Valid() && WasIssued(id, accepted) && id !in registered
      modifies this`clients, this`registered
      ensures Valid()
      ensures State() == Registry.Register(old(State()), id)
      ensures registered == old(registered) + {id}
      ensures id !in old(clients) && id !in wire
    {
      InvariantRegister(State(), nextId, accepted, registered, wire, id);
      clients := clients[id := []];
      registered := registered + {id};
    }

    /** The direct sends to a registered connection: `Welcome` with its id,
        then one `Position` per entry of the snapshot of every other
        connection's position; after them its writer thread starts draining
        its channel. */
    method Join(id: Id) returns (snapshot: seq<(Id, PlayerPos)>)
      requires Valid() && id in clients && id !in wire
      modifies this`wire
      ensures Valid()
      ensures KeysOf(snapshot) == Others(positions.Keys, Some(id))
      ensures DistinctKeys(snapshot) && EntriesOf(snapshot, positions)
      ensures wire == old(wire)[id := [Welcome(id)] + SnapshotMessages(snapshot)]
    {
      var sent;
      snapshot, sent := SendExistingPositions(id);
      var direct := [Welcome(id)] + sent;
      InvariantJoin(State(), nextId, accepted, registered, wire, id, direct);
      wire := wire[id := direct];
    }

    /** `send_existing_positions`: copy every other connection's position
        under the lock, then write one `Position` per entry to the stream of
        connection `id`; `sent` is what it writes, in order. */
    method SendExistingPositions(id: Id) returns (snapshot: seq<(Id, PlayerPos)>, sent: seq<ServerMessage>)
      ensures KeysOf(snapshot) == Others(positions.Keys, Some(id))
      ensures DistinctKeys(snapshot) && EntriesOf(snapshot, positions)
      ensures |snapshot| == |Others(positions.Keys, Some(id))|
      ensures sent == SnapshotMessages(snapshot)
    {
      snapshot := CollectExcept(positions, Some(id));
      sent := [];
      for i := 0 to |snapshot|
        invariant sent == SnapshotMessages(snapshot[..i])
      {
        SnapshotMessagesSnoc(snapshot[..i], snapshot[i]);
        assert snapshot[..i + 1] == snapshot[..i] + [snapshot[i]];
        sent := sent + [PositionUpdate(snapshot[i].0, snapshot[i].1)];
      }
      assert snapshot[..|snapshot|] == snapshot;
    }

    /** One turn of a writer thread: the oldest queued message is written
        to the stream. The stream followed by the queue is the same sequence
        as before: the channel is first in, first out. */
    method WriteQueued(id: Id) returns (m: ServerMessage)
      requires Valid() && id in wire && clients[id] != []
      modifies this`clients, this`wire
      ensures Valid()
      ensures m == old(clients[id][0])
      ensures clients == old(clients)[id := old(clients[id][1..])]
      ensures wire == old(wire)[id := old(wire[id]) + [m]]
      ensures wire[id] + clients[id] == old(wire[id] + clients[id])
    {
      m := clients[id][0];
      InvariantWrite(State(), nextId, accepted, registered, wire, id);
      clients := clients[id := clients[id][1..]];
      wire := wire[id := wire[id] + [m]];
    }

    /** `broadcast_json`: copy the recipient list, every open connection
        but the excluded one, then queue the message on each. Only the
        channels change. */
    method Broadcast(msg: ServerMessage, exclude: Option<Id>)
      modifies this`clients
      ensures State() == Registry.Broadcast(old(State()), msg, exclude)
    {
      var recipients := CollectExcept(clients, exclude);
      SendAll(recipients, msg);
    }

    /** The send loop of `broadcast_json`: `msg` is queued once on the
        channel of each listed connection, and on no other. */
    method SendAll(recipients: seq<(Id, Queue)>, msg: ServerMessage)
      requires KeysOf(recipients) <= clients.Keys && DistinctKeys(recipients)
      modifies this`clients
      ensures clients == AppendTo(old(clients), KeysOf(recipients), msg)
    {
      ghost var sent: set<Id> := {};
      for i := 0 to |recipients|
        invariant sent == KeysOf(recipients[..i])
        invariant clients == AppendTo(old(clients), sent, msg)
      {
        var id := recipients[i].0;
        DistinctPrefix(recipients, i);
        assert id in KeysOf(recipients);
        AppendToStep(old(clients), sent, id, msg);
        clients := clients[id := clients[id] + [msg]];
        sent := sent + {id};
      }
      assert recipients[..|recipients|] == recipients;
    }

    /** One line read from connection `c`: a blank or undecodable line is
        skipped; a position becomes `c`'s position and is relayed to every
        other connection. */
    method OnLine(c: Id, text: string, decode: Decoder) returns (kind: LineKind)
      requires Valid() && c in wire
      modifies this`clients, this`positions
      ensures Valid()
      ensures kind == Classify(text, decode)
      ensures State() == HandleLine(old(State()), c, text, decode)
    {
      ghost var s0 := State();
      InvariantHandleLine(s0, nextId, accepted, registered, wire, c, text, decode);
      kind := Classify(text, decode);
      match kind
      case Update(p) =>
        positions := positions[c := p];
        Broadcast(PositionUpdate(c, p), Some(c));
      case _ =>
    }

    /** Teardown: remove `c` from both maps in one locked region (its
        stream is no longer tracked), then broadcast `PlayerLeft` to every
        connection still open. */
    method Teardown(c: Id)
      requires Valid()
      modifies this`clients, this`positions, this`wire
      ensures Valid()
      ensures State() == Registry.Teardown(old(State()), c)
      ensures wire == old(wire) - {c}
    {
      InvariantUnregister(State(), nextId, accepted, registered, wire, c);
      clients := clients - {c};
      positions := positions - {c};
      wire := wire - {c};
      InvariantBroadcast(State(), nextId, accepted, registered, wire, PlayerLeft(c), Some(c));
      Broadcast(PlayerLeft(c), Some(c));
    }

    /** The reader loop of connection `c` over the results of successive
        `read_line` calls, tearing down when the stream ends or fails. This
        is the corrected loop: as written, a read error returns through `?`
        before the teardown (see `Registry.IngressAsWritten`). A line that
        was read holds at least one character. */
    method Serve(c: Id, input: seq<ReadOutcome>, decode: Decoder) returns (end: SessionEnd)
      requires Valid() && c in wire
      requires forall i :: 0 <= i < |input| && input[i].Line? ==> input[i].text != []
      modifies this`clients, this`positions, this`wire
      ensures Valid()
      ensures (State(), end) == Ingress(old(State()), c, input, decode)
      ensures end == StillOpen ==> wire == old(wire)
      ensures end == Closed ==> wire == old(wire) - {c}
    {
      var i := 0;
      while i < |input|
        invariant 0 <= i <= |input|
        invariant Valid() && c in wire
        invariant wire == old(wire)
        invariant Ingress(State(), c, input[i..], decode) == Ingress(old(State()), c, input, decode)
      {
        assert input[i..][1..] == input[i + 1..];
        match input[i]
        case Line(text) =>
          var _ := OnLine(c, text, decode);
          i := i + 1;
        case EndOfStream =>
          Teardown(c);
          return Closed;
        case ReadError =>
          Teardown(c);
          return Closed;
      }
      end := StillOpen;
    }
  }
}
