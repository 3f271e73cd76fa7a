/** Selection of the connections a message goes to. Both the join-time
    snapshot and the broadcast recipient list walk a `HashMap` keyed by
    connection id with `filter_map`, dropping one excluded id; the walk's
    order is whatever the hash map yields. */
module Fanout {
  import opened Protocol

  /** The ids of `keys` other than the excluded one (all of them when
      nothing is excluded). */
  function Others(keys: set<Id>, exclude: Option<Id>): (r: set<Id>)
    ensures forall id :: id in r <==> id in keys && exclude != Some(id)
    ensures |r| == if exclude.Some? && exclude.value in keys then |keys| - 1 else |keys|
  {
    match exclude
    case None => keys
    case Some(x) => keys - {x}
  }

  /** The ids of a list of (id, value) pairs. */
  ghost function KeysOf<V>(entries: seq<(Id, V)>): set<Id> {
    set i | 0 <= i < |entries| :: entries[i].0
  }

  /** No id occurs twice in the list. */
  ghost predicate DistinctKeys<V>(entries: seq<(Id, V)>) {
    forall i, j :: 0 <= i < j < |entries| ==> entries[i].0 != entries[j].0
  }

  /** Every pair of the list is an entry of `m`. */
  ghost predicate EntriesOf<V>(entries: seq<(Id, V)>, m: map<Id, V>) {
    forall i :: 0 <= i < |entries| ==> entries[i].0 in m && entries[i].1 == m[entries[i].0]
  }

  lemma KeysOfSnoc<V>(entries: seq<(Id, V)>, e: (Id, V))
    ensures KeysOf(entries + [e]) == KeysOf(entries) + {e.0}
  {
    var s := entries + [e];
    assert forall i :: 0 <= i < |entries| ==> s[i] == entries[i];
    assert s[|entries|] == e;
  }

  /** A list without repeated ids has as many entries as ids. */
  lemma {:induction false} DistinctKeysCount<V>(entries: seq<(Id, V)>)
    requires DistinctKeys(entries)
    ensures |KeysOf(entries)| == |entries|
  {
    if entries != [] {
      var init := entries[..|entries| - 1];
      var last := entries[|entries| - 1];
      assert entries == init + [last];
      DistinctKeysCount(init);
      KeysOfSnoc(init, last);
      assert last.0 !in KeysOf(init);
    }
  }

  lemma EntriesSnoc<V>(entries: seq<(Id, V)>, m: map<Id, V>, id: Id)
    requires EntriesOf(entries, m) && id in m
    ensures EntriesOf(entries + [(id, m[id])], m)
  {
  }

  /** Walking a list without repeated ids meets each id once. */
  lemma DistinctPrefix<V>(entries: seq<(Id, V)>, i: nat)
    requires DistinctKeys(entries) && i < |entries|
    ensures entries[i].0 !in KeysOf(entries[..i])
    ensures KeysOf(entries[..i + 1]) == KeysOf(entries[..i]) + {entries[i].0}
  {
    assert entries[..i + 1] == entries[..i] + [entries[i]];
    KeysOfSnoc(entries[..i], entries[i]);
    forall j | 0 <= j < i ensures entries[..i][j].0 != entries[i].0 {
    }
  }

  /** Appending a pair whose id is new keeps the ids distinct. */
  lemma DistinctSnoc<V>(entries: seq<(Id, V)>, e: (Id, V))
    requires DistinctKeys(entries)
    requires e.0 !in KeysOf(entries)
    ensures DistinctKeys(entries + [e])
  {
    var s := entries + [e];
    forall i, j | 0 <= i < j < |s| ensures s[i].0 != s[j].0 {
      if j == |entries| {
        assert s[i].0 == entries[i].0 && entries[i].0 in KeysOf(entries);
      }
    }
  }

  /** What the walk has produced once the keys in `rest` are still to be
      visited: one pair per visited key other than the excluded one, each
      with its stored value, no key twice. */
  ghost predicate Collected<V>(m: map<Id, V>, exclude: Option<Id>, rest: set<Id>, entries: seq<(Id, V)>) {
    && KeysOf(entries) == Others(m.Keys - rest, exclude)
    && DistinctKeys(entries)
    && EntriesOf(entries, m)
  }

  /** Visiting one more key adds it to the selection unless it is the
      excluded one. */
  lemma OthersAdd(done: set<Id>, exclude: Option<Id>, id: Id)
    ensures exclude != Some(id) ==> Others(done + {id}, exclude) == Others(done, exclude) + {id}
    ensures exclude == Some(id) ==> Others(done + {id}, exclude) == Others(done, exclude)
  {
  }

  /** One step of the walk: visiting `id` keeps the walk's invariant. */
  lemma CollectStep<V>(m: map<Id, V>, exclude: Option<Id>, rest: set<Id>, entries: seq<(Id, V)>, id: Id)
    requires rest <= m.Keys && id in rest
    requires Collected(m, exclude, rest, entries)
    ensures Collected(m, exclude, rest - {id}, if exclude != Some(id) then entries + [(id, m[id])] else entries)
  {
    var done := m.Keys - rest;
    assert m.Keys - (rest - {id}) == done + {id};
    OthersAdd(done, exclude, id);
    if exclude != Some(id) {
      CollectTake(m, entries, id);
    }
  }

  lemma CollectTake<V>(m: map<Id, V>, entries: seq<(Id, V)>, id: Id)
    requires id in m && id !in KeysOf(entries)
    requires DistinctKeys(entries) && EntriesOf(entries, m)
    ensures KeysOf(entries + [(id, m[id])]) == KeysOf(entries) + {id}
    ensures DistinctKeys(entries + [(id, m[id])]) && EntriesOf(entries + [(id, m[id])], m)
  {
    KeysOfSnoc(entries, (id, m[id]));
    DistinctSnoc(entries, (id, m[id]));
    EntriesSnoc(entries, m, id);
  }

  /** The `iter().filter_map(..).collect()` walk over a map: one pair per
      key of `m` other than the excluded one, each with its stored value,
      no key twice, in an order the caller cannot rely on. */
  method CollectExcept<V>(m: map<Id, V>, exclude: Option<Id>) returns (entries: seq<(Id, V)>)
    ensures KeysOf(entries) == Others(m.Keys, exclude)
    ensures DistinctKeys(entries)
    ensures EntriesOf(entries, m)
    ensures |entries| == |Others(m.Keys, exclude)|
  {
    entries := [];
    var rest := m.Keys;
    while rest != {}
      invariant rest <= m.Keys
      invariant Collected(m, exclude, rest, entries)
      decreases rest
    {
      var id :| id in rest;
      CollectStep(m, exclude, rest, entries, id);
      if exclude != Some(id) {
        entries := entries + [(id, m[id])];
      }
      rest := rest - {id};
    }
    assert m.Keys - rest == m.Keys;
    DistinctKeysCount(entries);
  }
}
