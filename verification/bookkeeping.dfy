/** The relay server's invariant, stated on values so that each locked
    region can be shown to keep it by a lemma of its own. */
module Bookkeeping {
  import opened Protocol
  import opened Ids
  import opened Registry
  import Fanout

  /** The streams of the connections that have joined: each belongs to an
      open connection and starts with that connection's `Welcome`. */
  ghost predicate StreamsValid(clients: map<Id, Queue>, wire: map<Id, seq<ServerMessage>>) {
    forall k :: k in wire ==> k in clients && wire[k] != [] && wire[k][0] == Welcome(k)
  }

  /** The server's invariant: the registry is consistent, the streams agree
      with the open connections, the counter holds the id of the next
      accept, every open id has been registered, and every id ever
      registered is one the counter handed out. */
  ghost predicate Invariant(s: Shared, nextId: u32, accepted: nat, registered: set<Id>, wire: map<Id, seq<ServerMessage>>) {
    && Consistent(s)
    && StreamsValid(s.clients, wire)
    && nextId == NthId(accepted)
    && s.clients.Keys <= registered
    && forall k :: k in registered ==> WasIssued(k, accepted)
  }

  /** `fetch_add(1)` keeps the counter in step, and hands out an id that
      no open connection has. */
  lemma InvariantAccept(s: Shared, n: u32, a: nat, r: set<Id>, w: map<Id, seq<ServerMessage>>)
    requires Invariant(s, n, a, r, w) && a < U32_COUNT
    ensures n == NthId(a) && !WasIssued(n, a) && WasIssued(n, a + 1) && n !in r && n !in s.clients
    ensures Invariant(s, WrappingIncrement(n), a + 1, r, w)
  {
    CounterAfter(a);
  }

  /** Registering an id that was handed out and never registered keeps the
      invariant; the id has no stream yet. */
  lemma InvariantRegister(s: Shared, n: u32, a: nat, r: set<Id>, w: map<Id, seq<ServerMessage>>, id: Id)
    requires Invariant(s, n, a, r, w) && WasIssued(id, a) && id !in r
    ensures id !in s.clients && id !in w
    ensures Invariant(Register(s, id), n, a, r + {id}, w)
  {
  }

  /** Starting a registered connection's stream with its `Welcome`. */
  lemma InvariantJoin(s: Shared, n: u32, a: nat, r: set<Id>, w: map<Id, seq<ServerMessage>>, id: Id, direct: seq<ServerMessage>)
    requires Invariant(s, n, a, r, w) && id in s.clients
    requires direct != [] && direct[0] == Welcome(id)
    ensures Invariant(s, n, a, r, w[id := direct])
  {
  }

  /** Moving the oldest queued message of a joined connection to its stream. */
  lemma InvariantWrite(s: Shared, n: u32, a: nat, r: set<Id>, w: map<Id, seq<ServerMessage>>, id: Id)
    requires Invariant(s, n, a, r, w) && id in w && s.clients[id] != []
    ensures Invariant(s.(clients := s.clients[id := s.clients[id][1..]]), n, a, r, w[id := w[id] + [s.clients[id][0]]])
  {
  }

  lemma InvariantHandleLine(s: Shared, n: u32, a: nat, r: set<Id>, w: map<Id, seq<ServerMessage>>, c: Id, text: string, decode: Decoder)
    requires Invariant(s, n, a, r, w) && c in s.clients
    ensures Invariant(HandleLine(s, c, text, decode), n, a, r, w)
  {
    match Classify(text, decode)
    case Update(p) =>
      var s' := SetPosition(s, c, p);
      AppendToKeys(s'.clients, Fanout.Others(s'.clients.Keys, Some(c)), PositionUpdate(c, p));
    case _ =>
  }

  lemma InvariantUnregister(s: Shared, n: u32, a: nat, r: set<Id>, w: map<Id, seq<ServerMessage>>, c: Id)
    requires Invariant(s, n, a, r, w)
    ensures Invariant(Unregister(s, c), n, a, r, w - {c})
  {
  }

  /** Queueing a message changes no key set. */
  lemma InvariantBroadcast(s: Shared, n: u32, a: nat, r: set<Id>, w: map<Id, seq<ServerMessage>>, msg: ServerMessage, exclude: Option<Id>)
    requires Invariant(s, n, a, r, w)
    ensures Invariant(Broadcast(s, msg, exclude), n, a, r, w)
  {
    AppendToKeys(s.clients, Fanout.Others(s.clients.Keys, exclude), msg);
  }
}
