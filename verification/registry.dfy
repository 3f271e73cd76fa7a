/** The server's `SharedState` as a value, and what one connection's session
    does to it. Each operation here is one locked region of the server (or,
    for a broadcast, the locked recipient copy followed by the sends), taken
    as an atomic step. */
module Registry {
  import opened Protocol
  import opened Fanout

  /** The messages queued on a connection's channel, not yet written out. */
  type Queue = seq<ServerMessage>

  /** `SharedState`: the outbound queue of every open connection, and the
      last position each connection reported. */
  datatype Shared = Shared(clients: map<Id, Queue>, positions: map<Id, PlayerPos>)

  /** Positions are held only for open connections. */
  ghost predicate Consistent(s: Shared) {
    s.positions.Keys <= s.clients.Keys
  }

  /** `SharedState::default()`. */
  function Empty(): Shared {
    Shared(map[], map[])
  }

  /** `state.clients.insert(client_id, tx)` with a fresh channel. */
  function Register(s: Shared, id: Id): Shared {
    s.(clients := s.clients[id := []])
  }

  /** `state.positions.insert(client_id, PlayerPos { x, y })`. */
  function SetPosition(s: Shared, id: Id, p: PlayerPos): Shared {
    s.(positions := s.positions[id := p])
  }

  /** `state.clients.remove(&id); state.positions.remove(&id)` in one locked region. */
  function Unregister(s: Shared, id: Id): Shared {
    Shared(s.clients - {id}, s.positions - {id})
  }

  /** `broadcast_json`: the message is appended to the queue of every open
      connection other than the excluded one. */
  function Broadcast(s: Shared, msg: ServerMessage, exclude: Option<Id>): Shared {
    s.(clients := AppendTo(s.clients, Others(s.clients.Keys, exclude), msg))
  }

  /** The queues after `msg` has been sent to each of the ids `to`. */
  function AppendTo(qs: map<Id, Queue>, to: set<Id>, msg: ServerMessage): map<Id, Queue> {
    map id | id in qs :: if id in to then qs[id] + [msg] else qs[id]
  }

  /** Sending never opens or closes a connection. */
  lemma AppendToKeys(qs: map<Id, Queue>, to: set<Id>, msg: ServerMessage)
    ensures AppendTo(qs, to, msg).Keys == qs.Keys
  {
  }

  /** Sending to one more recipient appends to that one queue only. */
  lemma AppendToStep(qs: map<Id, Queue>, to: set<Id>, id: Id, msg: ServerMessage)
    requires id in qs && id !in to
    ensures AppendTo(qs, to + {id}, msg) == AppendTo(qs, to, msg)[id := qs[id] + [msg]]
  {
  }

  /** The message that relays a position update from `id`. */
  function PositionUpdate(id: Id, p: PlayerPos): ServerMessage {
    ServerMessage.Position(id, p.x, p.y)
  }

  /** The catch-up a joining connection is sent directly, one `Position`
      per snapshot entry, in the snapshot's order. */
  function SnapshotMessages(entries: seq<(Id, PlayerPos)>): (ms: seq<ServerMessage>)
    ensures |ms| == |entries|
    ensures forall i :: 0 <= i < |ms| ==> ms[i] == PositionUpdate(entries[i].0, entries[i].1)
  {
    if entries == [] then []
    else [PositionUpdate(entries[0].0, entries[0].1)] + SnapshotMessages(entries[1..])
  }

  lemma SnapshotMessagesSnoc(entries: seq<(Id, PlayerPos)>, e: (Id, PlayerPos))
    ensures SnapshotMessages(entries + [e]) == SnapshotMessages(entries) + [PositionUpdate(e.0, e.1)]
  {
    var l := SnapshotMessages(entries + [e]);
    var r := SnapshotMessages(entries) + [PositionUpdate(e.0, e.1)];
    assert |l| == |r|;
    forall i | 0 <= i < |l| ensures l[i] == r[i] {
      if i < |entries| {
        assert (entries + [e])[i] == entries[i];
      }
    }
  }

  // ---------------------------------------------------------------------
  // Properties of the single operations

  /** Registering an id that is not open adds exactly one connection, with
      an empty queue, keeps every other queue, gives the newcomer no
      position, and keeps the registry consistent. */
  lemma RegisterEffect(s: Shared, id: Id)
    requires Consistent(s) && id !in s.clients
    ensures |Register(s, id).clients| == |s.clients| + 1
    ensures Register(s, id).clients[id] == []
    ensures forall k :: k in s.clients ==> Register(s, id).clients[k] == s.clients[k]
    ensures Register(s, id).positions == s.positions && id !in Register(s, id).positions
    ensures Consistent(Register(s, id))
  {
    assert s.clients[id := []].Keys == s.clients.Keys + {id};
  }

  /** Unregistering an id just registered restores the registry. */
  lemma RegisterUnregister(s: Shared, id: Id)
    requires Consistent(s) && id !in s.clients
    ensures Unregister(Register(s, id), id) == s
  {
    assert id !in s.positions;
    assert s.clients[id := []] - {id} == s.clients by {
      assert (s.clients[id := []] - {id}).Keys == s.clients.Keys;
    }
    assert s.positions - {id} == s.positions;
  }

  /** Unregistering removes the id from both maps in one step, leaves every
      other entry alone, and is a no-op on an id that is not there. */
  lemma UnregisterEffect(s: Shared, id: Id)
    requires Consistent(s)
    ensures var r := Unregister(s, id);
      && id !in r.clients && id !in r.positions && Consistent(r)
      && (forall k :: k in s.clients && k != id ==> k in r.clients && r.clients[k] == s.clients[k])
      && (forall k :: k in s.positions && k != id ==> k in r.positions && r.positions[k] == s.positions[k])
      && (id !in s.clients ==> r == s)
  {
    if id !in s.clients {
      assert s.clients - {id} == s.clients;
      assert s.positions - {id} == s.positions;
    }
  }

  /** Unregistering an open id drops exactly one open connection. */
  lemma UnregisterCount(s: Shared, id: Id)
    ensures |Unregister(s, id).clients| == if id in s.clients then |s.clients| - 1 else |s.clients|
  {
    assert (s.clients - {id}).Keys == s.clients.Keys - {id};
  }

  /** A position update replaces the sender's position wholesale (the last
      value wins) and leaves every other position and every queue alone. */
  lemma SetPositionEffect(s: Shared, c: Id, p: PlayerPos, q: PlayerPos)
    requires Consistent(s) && c in s.clients
    ensures var r := SetPosition(s, c, p);
      && r.positions[c] == p && r.clients == s.clients && Consistent(r)
      && (forall k :: k != c ==> (k in r.positions <==> k in s.positions))
      && (forall k :: k != c && k in s.positions ==> r.positions[k] == s.positions[k])
    ensures SetPosition(SetPosition(s, c, p), c, q) == SetPosition(s, c, q)
  {
  }

  /** A broadcast appends the message to the queue of exactly the open
      connections other than the excluded one, changes no other queue and
      neither map's key set, and never echoes to the excluded sender. */
  lemma BroadcastEffect(s: Shared, msg: ServerMessage, exclude: Option<Id>)
    ensures var r := Broadcast(s, msg, exclude);
      && r.clients.Keys == s.clients.Keys && r.positions == s.positions
      && (forall k :: k in s.clients && exclude != Some(k) ==> r.clients[k] == s.clients[k] + [msg])
      && (exclude.Some? && exclude.value in s.clients ==> r.clients[exclude.value] == s.clients[exclude.value])
    ensures Consistent(s) ==> Consistent(Broadcast(s, msg, exclude))
  {
  }

  /** The connection is registered before its catch-up is read, so a
      position update from any other connection that is broadcast between
      the two lands in the newcomer's queue. */
  lemma RegisteredBeforeSnapshot(s: Shared, id: Id, sender: Id, p: PlayerPos)
    requires id !in s.clients && sender != id
    ensures Broadcast(SetPosition(Register(s, id), sender, p), PositionUpdate(sender, p), Some(sender)).clients[id]
         == [PositionUpdate(sender, p)]
  {
  }

  /** Teardown excludes the leaving id from its `PlayerLeft` broadcast, but
      the id is already unregistered by then, so the notice reaches exactly
      the same connections as a broadcast excluding no one. */
  lemma TeardownExcludeIrrelevant(s: Shared, c: Id, msg: ServerMessage)
    ensures Broadcast(Unregister(s, c), msg, Some(c)) == Broadcast(Unregister(s, c), msg, None)
  {
    var u := Unregister(s, c);
    assert Others(u.clients.Keys, Some(c)) == Others(u.clients.Keys, None);
  }

  // ---------------------------------------------------------------------
  // One session's reader loop

  /** One line of the reader loop: blank and undecodable lines are skipped;
      a position is stored, then relayed to everyone but the sender. */
  function HandleLine(s: Shared, c: Id, text: string, decode: Decoder): Shared {
    match Classify(text, decode)
    case Update(p) => Broadcast(SetPosition(s, c, p), PositionUpdate(c, p), Some(c))
    case _ => s
  }

  /** Teardown: unregister, then tell everyone that is left. */
  function Teardown(s: Shared, c: Id): Shared {
    Broadcast(Unregister(s, c), PlayerLeft(c), Some(c))
  }

  /** How a session's reader loop ended. `Aborted` is `handle_client`
      returning an I/O error through `?`. */
  datatype SessionEnd = StillOpen | Closed | Aborted

  /** The reader loop of `handle_client` as written: it reads until end of
      stream and then tears down, but a read error leaves the function
      through `?` before the teardown. */
  function IngressAsWritten(s: Shared, c: Id, input: seq<ReadOutcome>, decode: Decoder): (Shared, SessionEnd)
    decreases |input|
  {
    if input == [] then (s, StillOpen)
    else match input[0]
      case Line(text) => IngressAsWritten(HandleLine(s, c, text, decode), c, input[1..], decode)
      case EndOfStream => (Teardown(s, c), Closed)
      case ReadError => (s, Aborted)
  }

  /** The reader loop with teardown on every way the stream can end, end of
      stream and read error alike. */
  function Ingress(s: Shared, c: Id, input: seq<ReadOutcome>, decode: Decoder): (Shared, SessionEnd)
    decreases |input|
  {
    if input == [] then (s, StillOpen)
    else match input[0]
      case Line(text) => Ingress(HandleLine(s, c, text, decode), c, input[1..], decode)
      case EndOfStream => (Teardown(s, c), Closed)
      case ReadError => (Teardown(s, c), Closed)
  }

  /** Teardown removes the connection from both maps, keeps every other
      position, and queues exactly one `PlayerLeft` on every connection
      that is still open. */
  lemma TeardownEffect(s: Shared, c: Id)
    requires Consistent(s)
    ensures var r := Teardown(s, c);
      && c !in r.clients && c !in r.positions && Consistent(r)
      && r.positions == s.positions - {c}
      && r.clients.Keys == s.clients.Keys - {c}
      && forall k :: k in r.clients ==> r.clients[k] == s.clients[k] + [PlayerLeft(c)]
  {
    UnregisterEffect(s, c);
    BroadcastEffect(Unregister(s, c), PlayerLeft(c), Some(c));
  }

  /** A skipped line changes nothing: no registry change, no broadcast. */
  lemma SkippedLineChangesNothing(s: Shared, c: Id, text: string, decode: Decoder)
    requires !Classify(text, decode).Update?
    ensures HandleLine(s, c, text, decode) == s
  {
  }

  /** Lines keep the registry consistent, keep the sender open, and never
      add to the sender's own queue; a position line records the position
      and queues its relay on every other open connection. */
  lemma HandleLineEffect(s: Shared, c: Id, text: string, decode: Decoder)
    requires Consistent(s) && c in s.clients
    ensures var r := HandleLine(s, c, text, decode);
      && Consistent(r) && r.clients.Keys == s.clients.Keys && r.clients[c] == s.clients[c]
      && r.positions - {c} == s.positions - {c}
    ensures Classify(text, decode).Update? ==>
      var p := Classify(text, decode).pos;
      var r := HandleLine(s, c, text, decode);
      && r.positions == s.positions[c := p]
      && forall k :: k in s.clients && k != c ==> r.clients[k] == s.clients[k] + [PositionUpdate(c, p)]
  {
    match Classify(text, decode)
    case Update(p) =>
      SetPositionEffect(s, c, p, p);
      BroadcastEffect(SetPosition(s, c, p), PositionUpdate(c, p), Some(c));
      assert s.positions[c := p] - {c} == s.positions - {c};
    case _ =>
  }

  /** While a session is open, the set of open connections is unchanged
      (in this one session's view), the registry stays consistent, and the
      session's own updates are never queued back to it. Once it ends, the
      connection is gone from both maps, and every connection still open
      got `PlayerLeft` as its newest queued message. Either way, no other
      connection's position changes. */
  lemma {:induction false} IngressEffect(s: Shared, c: Id, input: seq<ReadOutcome>, decode: Decoder)
    requires Consistent(s) && c in s.clients
    decreases |input|
    ensures var res := Ingress(s, c, input, decode); var r := res.0;
      && Consistent(r) && res.1 != Aborted
      && r.positions - {c} == s.positions - {c}
      && (res.1 == StillOpen ==> r.clients.Keys == s.clients.Keys && r.clients[c] == s.clients[c])
      && (res.1 == Closed ==> c !in r.clients && c !in r.positions
                              && r.clients.Keys == s.clients.Keys - {c}
                              && forall k :: k in r.clients ==> LastIs(r.clients[k], PlayerLeft(c)))
  {
    if input != [] {
      match input[0]
      case Line(text) =>
        HandleLineEffect(s, c, text, decode);
        IngressEffect(HandleLine(s, c, text, decode), c, input[1..], decode);
      case EndOfStream =>
        TeardownEffect(s, c);
        RemoveTwice(s.positions, c);
      case ReadError =>
        TeardownEffect(s, c);
        RemoveTwice(s.positions, c);
    }
  }

  lemma RemoveTwice(m: map<Id, PlayerPos>, c: Id)
    ensures m - {c} - {c} == m - {c}
  {
  }

  /** The newest message of a queue. */
  ghost predicate LastIs(q: Queue, m: ServerMessage) {
    q != [] && q[|q| - 1] == m
  }

  /** A session whose input reaches end of stream or a read error ends
      closed: it never stays registered past the end of its stream. */
  lemma {:induction false} IngressEndsOnStreamEnd(s: Shared, c: Id, input: seq<ReadOutcome>, decode: Decoder, n: nat)
    requires n < |input| && !input[n].Line?
    decreases |input|
    ensures Ingress(s, c, input, decode).1 == Closed
  {
    if input[0].Line? {
      IngressEndsOnStreamEnd(HandleLine(s, c, input[0].text, decode), c, input[1..], decode, n - 1);
    }
  }

  /** As written, a connection whose stream fails (a reset, or a line that
      is not UTF-8) stays registered with its position, so a later joiner's
      catch-up still lists it, and nobody is told it left. */
  lemma ReadErrorLeaksAsWritten(s: Shared, c: Id, decode: Decoder, joiner: Id)
    requires Consistent(s) && c in s.positions && joiner != c
    ensures var (r, end) := IngressAsWritten(s, c, [ReadError], decode);
      && end == Aborted && c in r.clients && c in Others(r.positions.Keys, Some(joiner))
      && forall k :: k in r.clients ==> r.clients[k] == s.clients[k]
    ensures Ingress(s, c, [ReadError], decode).1 == Closed
    ensures c !in Ingress(s, c, [ReadError], decode).0.positions
  {
    UnregisterEffect(s, c);
  }
}
