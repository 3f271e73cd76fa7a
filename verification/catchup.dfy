/** The join protocol seen from both ends: what the server writes to a
    joining connection before anything else, and what the client makes of it. */
module Catchup {
  import opened Protocol
  import opened Fanout
  import opened Registry
  import opened Client

  /** The entries of `positions` whose ids are in `keys`. */
  function Restrict(positions: map<Id, PlayerPos>, keys: set<Id>): (r: map<Id, PlayerPos>)
    ensures r.Keys == keys * positions.Keys
    ensures forall k :: k in r ==> r[k] == positions[k]
  {
    map k | k in keys && k in positions :: positions[k]
  }

  lemma KeysOfTail(es: seq<(Id, PlayerPos)>)
    requires es != []
    ensures KeysOf(es) == {es[0].0} + KeysOf(es[1..])
  {
    var tail := es[1..];
    assert forall i :: 0 <= i < |tail| ==> tail[i] == es[i + 1];
    forall k | k in KeysOf(es) ensures k in {es[0].0} + KeysOf(tail) {
      var i :| 0 <= i < |es| && es[i].0 == k;
      if i > 0 {
        assert tail[i - 1].0 == k;
      }
    }
  }

  /** The first message of a snapshot, and the rest. */
  lemma SnapshotMessagesCons(es: seq<(Id, PlayerPos)>)
    requires es != []
    ensures SnapshotMessages(es)[0] == ServerMessage.Position(es[0].0, es[0].1.x, es[0].1.y)
    ensures SnapshotMessages(es)[1..] == SnapshotMessages(es[1..])
  {
  }

  lemma EntriesOfTail(es: seq<(Id, PlayerPos)>, positions: map<Id, PlayerPos>)
    requires es != [] && EntriesOf(es, positions)
    ensures es[0].0 in positions && es[0].1 == positions[es[0].0]
    ensures EntriesOf(es[1..], positions)
  {
    var tail := es[1..];
    assert forall i :: 0 <= i < |tail| ==> tail[i] == es[i + 1];
  }

  /** Storing one more entry of `positions` before the rest. */
  lemma UpsertRestrict(t: map<Id, PlayerPos>, k: Id, keys: set<Id>, positions: map<Id, PlayerPos>)
    requires k in positions
    ensures t[k := positions[k]] + Restrict(positions, keys) == t + Restrict(positions, {k} + keys)
  {
  }

  /** Once the identity is known, a snapshot's `Position` messages store each
      listed entry as it is in `positions`. */
  lemma {:induction false} SnapshotStores(me: Id, t: map<Id, PlayerPos>, es: seq<(Id, PlayerPos)>, positions: map<Id, PlayerPos>)
    requires me !in KeysOf(es) && EntriesOf(es, positions)
    decreases |es|
    ensures ApplyAll(View(Some(me), t), SnapshotMessages(es)) == View(Some(me), t + Restrict(positions, KeysOf(es)))
  {
    if es == [] {
      assert Restrict(positions, KeysOf(es)) == map[];
      assert t + map[] == t;
    } else {
      var e := es[0];
      var tail := es[1..];
      KeysOfTail(es);
      SnapshotMessagesCons(es);
      EntriesOfTail(es, positions);
      var t' := t[e.0 := positions[e.0]];
      assert Apply(View(Some(me), t), SnapshotMessages(es)[0]) == View(Some(me), t');
      SnapshotStores(me, t', tail, positions);
      UpsertRestrict(t, e.0, KeysOf(tail), positions);
    }
  }

  /** A client that starts from `ClientState::new` and reads the greeting
      `Join` writes — `Welcome` followed by the snapshot of every other
      player — knows its id and holds exactly the other players' positions
      as the server had them. This takes every written message to reach
      the client's channel decoded as written; a line the client cannot
      decode is dropped by its reader thread instead. */
  lemma CatchUp(me: Id, positions: map<Id, PlayerPos>, es: seq<(Id, PlayerPos)>)
    requires KeysOf(es) == Others(positions.Keys, Some(me)) && EntriesOf(es, positions)
    ensures ApplyAll(Initial(), [Welcome(me)] + SnapshotMessages(es)) == View(Some(me), positions - {me})
  {
    ApplyAllCons(Initial(), Welcome(me), SnapshotMessages(es));
    SnapshotStores(me, map[], es, positions);
    RestrictOthers(positions, me, KeysOf(es));
  }

  lemma ApplyAllCons(v: View, m: ServerMessage, rest: seq<ServerMessage>)
    ensures ApplyAll(v, [m] + rest) == ApplyAll(Apply(v, m), rest)
  {
    assert ([m] + rest)[1..] == rest;
  }

  /** The snapshot's entries are every position but the joiner's own. */
  lemma RestrictOthers(positions: map<Id, PlayerPos>, me: Id, keys: set<Id>)
    requires keys == Others(positions.Keys, Some(me))
    ensures map[] + Restrict(positions, keys) == positions - {me}
  {
  }

  /** What the writer thread adds after the greeting is relayed traffic,
      which never holds a `Welcome`: a client that has caught up keeps its
      identity and never lists itself, whatever else it reads. */
  lemma {:induction false} CaughtUpClientNeverListsItself(me: Id, positions: map<Id, PlayerPos>,
                                                          es: seq<(Id, PlayerPos)>, relayed: seq<ServerMessage>)
    requires KeysOf(es) == Others(positions.Keys, Some(me)) && EntriesOf(es, positions)
    requires forall i :: 0 <= i < |relayed| ==> !relayed[i].Welcome?
    ensures var v := ApplyAll(Initial(), [Welcome(me)] + SnapshotMessages(es) + relayed);
      v.playerId == Some(me) && me !in v.remotePlayers
  {
    var greeting := [Welcome(me)] + SnapshotMessages(es);
    ApplyAllAppend(Initial(), greeting, relayed);
    CatchUp(me, positions, es);
    SelfNeverListed(View(Some(me), positions - {me}), relayed);
  }
}
