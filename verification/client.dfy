/** The client's reconciliation of server messages into its local state:
    who it is, and where every other player last was. */
module Client {
  import opened Protocol

  /** The part of `ClientState` that server messages change. */
  datatype View = View(playerId: Option<Id>, remotePlayers: map<Id, PlayerPos>)

  /** `ClientState::new`: no identity yet, no remote players. */
  function Initial(): View {
    View(None, map[])
  }

  /** One server message: `Welcome` sets who we are; a `Position` about
      ourselves is ignored, any other one replaces that player's entry;
      `PlayerLeft` drops the entry. */
  function Apply(v: View, m: ServerMessage): View {
    match m
    case Welcome(id) => v.(playerId := Some(id))
    case Position(id, x, y) =>
      if v.playerId == Some(id) then v
      else v.(remotePlayers := v.remotePlayers[id := PlayerPos(x, y)])
    case PlayerLeft(id) => v.(remotePlayers := v.remotePlayers - {id})
  }

  /** Messages applied one after another, in arrival order. */
  function ApplyAll(v: View, ms: seq<ServerMessage>): View
    decreases |ms|
  {
    if ms == [] then v else ApplyAll(Apply(v, ms[0]), ms[1..])
  }

  /** `Welcome` assigns the identity and leaves the table alone. */
  lemma WelcomeEffect(v: View, id: Id)
    ensures Apply(v, Welcome(id)).playerId == Some(id)
    ensures Apply(v, Welcome(id)).remotePlayers == v.remotePlayers
  {
  }

  /** A position report about ourselves changes nothing; any other one sets
      exactly that player's entry, wholesale, and keeps the identity. In
      particular, before any `Welcome` every report is stored. */
  lemma PositionEffect(v: View, id: Id, x: Coord, y: Coord)
    ensures v.playerId == Some(id) ==> Apply(v, ServerMessage.Position(id, x, y)) == v
    ensures v.playerId != Some(id) ==>
      var r := Apply(v, ServerMessage.Position(id, x, y));
      && r.playerId == v.playerId
      && r.remotePlayers.Keys == v.remotePlayers.Keys + {id}
      && r.remotePlayers[id] == PlayerPos(x, y)
      && forall k :: k in v.remotePlayers && k != id ==> r.remotePlayers[k] == v.remotePlayers[k]
    ensures v.playerId.None? ==> Apply(v, ServerMessage.Position(id, x, y)).remotePlayers[id] == PlayerPos(x, y)
  {
  }

  /** `PlayerLeft` drops exactly that entry, and is a no-op when the entry
      is not there. */
  lemma PlayerLeftEffect(v: View, id: Id)
    ensures var r := Apply(v, PlayerLeft(id));
      && r.playerId == v.playerId
      && r.remotePlayers.Keys == v.remotePlayers.Keys - {id}
      && (forall k :: k in r.remotePlayers ==> r.remotePlayers[k] == v.remotePlayers[k])
    ensures id !in v.remotePlayers ==> Apply(v, PlayerLeft(id)) == v
  {
    if id !in v.remotePlayers {
      assert v.remotePlayers - {id} == v.remotePlayers;
    }
  }

  /** Every message is idempotent: a report that arrives twice in a row
      (say, once in the join snapshot and once relayed) has the effect of
      one. */
  lemma ApplyIdempotent(v: View, m: ServerMessage)
    ensures Apply(Apply(v, m), m) == Apply(v, m)
  {
    match m
    case Welcome(id) =>
    case Position(id, x, y) =>
    case PlayerLeft(id) =>
      assert v.remotePlayers - {id} - {id} == v.remotePlayers - {id};
  }

  /** Draining in two batches is draining once: the state after a drain is
      the left fold of `Apply` over everything received. */
  lemma {:induction false} ApplyAllAppend(v: View, a: seq<ServerMessage>, b: seq<ServerMessage>)
    decreases |a|
    ensures ApplyAll(v, a + b) == ApplyAll(ApplyAll(v, a), b)
  {
    if a != [] {
      assert (a + b)[0] == a[0] && (a + b)[1..] == a[1..] + b;
      ApplyAllAppend(Apply(v, a[0]), a[1..], b);
      assert ApplyAll(v, a + b) == ApplyAll(Apply(v, a[0]), a[1..] + b);
    } else {
      assert a + b == b;
    }
  }

  /** A message repeated at once changes nothing more. */
  lemma RepeatedMessageHarmless(v: View, ms: seq<ServerMessage>, m: ServerMessage)
    ensures ApplyAll(v, ms + [m, m]) == ApplyAll(v, ms + [m])
  {
    ApplyAllAppend(v, ms, [m, m]);
    ApplyAllAppend(v, ms, [m]);
    var w := ApplyAll(v, ms);
    assert [m, m][1..] == [m];
    ApplyIdempotent(w, m);
  }

  /** Once we know who we are, and as long as no new `Welcome` arrives, we
      never list ourselves as a remote player. */
  lemma {:induction false} SelfNeverListed(v: View, ms: seq<ServerMessage>)
    requires v.playerId.Some? && v.playerId.value !in v.remotePlayers
    requires forall i :: 0 <= i < |ms| ==> !ms[i].Welcome?
    decreases |ms|
    ensures ApplyAll(v, ms).playerId == v.playerId
    ensures v.playerId.value !in ApplyAll(v, ms).remotePlayers
  {
    if ms != [] {
      SelfNeverListed(Apply(v, ms[0]), ms[1..]);
    }
  }

  /** `ClientState`, reduced to what the network messages touch. */
  class ClientState {
    /** `player_id`. */
    var playerId: Option<Id>
    /** `remote_players`. */
    var remotePlayers: map<Id, PlayerPos>
    /** `net`: `None` when the connection could not be made; otherwise the
        decoded server messages waiting in the incoming channel. */
    var net: Option<seq<ServerMessage>>

    function Current(): View
      reads this
    {
      View(playerId, remotePlayers)
    }

    /** `ClientState::new`. */
    constructor (net: Option<seq<ServerMessage>>)
      ensures Current() == Initial()
      ensures this.net == net
    {
      playerId := None;
      remotePlayers := map[];
      this.net := net;
    }

    /** `process_network_messages`: without a network nothing happens;
        otherwise every waiting message is taken off the channel, oldest
        first, and applied. */
    method ProcessNetworkMessages()
      modifies this`playerId, this`remotePlayers, this`net
      ensures old(net).None? ==> Current() == old(Current()) && net.None?
      ensures old(net).Some? ==> Current() == ApplyAll(old(Current()), old(net).value) && net == Some([])
    {
      if net.None? {
        return;
      }
      while net.value != []
        invariant net.Some?
        invariant ApplyAll(Current(), net.value) == ApplyAll(old(Current()), old(net).value)
        decreases |net.value|
      {
        var message := net.value[0];
        net := Some(net.value[1..]);
        match message
        case Welcome(id) =>
          playerId := Some(id);
        case Position(id, x, y) =>
          if playerId == Some(id) {
            continue;
          }
          remotePlayers := remotePlayers[id := PlayerPos(x, y)];
        case PlayerLeft(id) =>
          remotePlayers := remotePlayers - {id};
      }
    }
  }
}
