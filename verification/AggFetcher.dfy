/** The aggregating loader: many values per ID, grouped after each fetch and loaded through the same batching. */
module AggFetcher {
  import opened Common
  import DL = DataLoader
  import DS = DataLoaderSafety

  datatype AggResult<K, V> = AggResult(id: K, values: seq<V>)

  function ResultID<K, V>(r: AggResult<K, V>): K {
    r.id
  }

  /** The values with the given ID, in their original order. */
  function Select<K(==), V>(values: seq<V>, idOf: V -> K, id: K): seq<V> {
    if values == [] then []
    else
      var last := values[|values| - 1];
      Select(values[..|values| - 1], idOf, id) + if idOf(last) == id then [last] else []
  }

  lemma {:induction false} SelectEmpty<K, V>(values: seq<V>, idOf: V -> K, id: K)
    ensures Select(values, idOf, id) == [] <==> forall v :: v in values ==> idOf(v) != id
  {
    if values != [] {
      var init, last := values[..|values| - 1], values[|values| - 1];
      SelectEmpty(init, idOf, id);
      assert forall v :: v in values <==> v in init || v == last;
    }
  }

  /** One entry per occurring ID, holding exactly the values with that ID in order. */
  ghost predicate Grouped<K(!new), V>(list: seq<AggResult<K, V>>, values: seq<V>, idOf: V -> K) {
    && (forall r :: r in list ==> r.values == Select(values, idOf, r.id) && r.values != [])
    && (forall v :: v in values ==> exists r :: r in list && r.id == idOf(v))
    && (forall i, j :: 0 <= i < j < |list| ==> list[i].id != list[j].id)
  }

  /** The grouping loop, and the conversion of its map to a list in whatever order the map is iterated. */
  method GroupByID<K(==,!new), V>(values: seq<V>, idOf: V -> K) returns (list: seq<AggResult<K, V>>)
    ensures Grouped(list, values, idOf)
  {
    var groups: map<K, AggResult<K, V>> := map[];
    for i := 0 to |values|
      invariant forall k :: k in groups ==> groups[k] == AggResult(k, Select(values[..i], idOf, k)) && groups[k].values != []
      invariant forall k :: k !in groups ==> Select(values[..i], idOf, k) == []
    {
      var v := values[i];
      var id := idOf(v);
      assert values[..i + 1][..i] == values[..i];
      if id !in groups {
        groups := groups[id := AggResult(id, [v])];
      } else {
        groups := groups[id := groups[id].(values := groups[id].values + [v])];
      }
    }
    assert values[..|values|] == values;
    list := [];
    var rest := groups.Keys;
    while rest != {}
      invariant rest <= groups.Keys
      invariant forall r :: r in list ==> r.id in groups && r.id !in rest && r == groups[r.id]
      invariant forall k :: k in groups && k !in rest ==> groups[k] in list
      invariant forall i, j :: 0 <= i < j < |list| ==> list[i].id != list[j].id
      decreases |rest|
    {
      var k :| k in rest;
      list := list + [groups[k]];
      rest := rest - {k};
    }
    forall v | v in values
      ensures exists r :: r in list && r.id == idOf(v)
    {
      SelectEmpty(values, idOf, idOf(v));
      assert groups[idOf(v)] in list;
    }
  }

  /** FetchAggregate on the outcome of its FetchOne; an ID without values gives an empty result. */
  function Aggregate<K, V>(value: Option<AggResult<K, V>>): seq<V> {
    if value.None? then [] else value.value.values
  }

  /** What FetchOne of one ID should find, if rows(k) lists the stored values of k. */
  function RowLookup<K, V(==)>(rows: K -> seq<V>): K -> Option<AggResult<K, V>> {
    k => if rows(k) == [] then None else Some(AggResult(k, rows(k)))
  }

  /** fetchMany returned the stored values of every requested ID, interleaved in any way, and nothing else. */
  ghost predicate ReturnsRows<K, V>(rows: K -> seq<V>, idOf: V -> K, ids: seq<K>, values: seq<V>) {
    && (forall v :: v in values ==> idOf(v) in ids)
    && (forall k :: k in ids ==> Select(values, idOf, k) == rows(k))
  }

  /** Grouping turns such a fetch into a per-key lookup. */
  lemma GroupedAnswers<K(!new), V>(rows: K -> seq<V>, idOf: V -> K, ids: seq<K>, values: seq<V>, list: seq<AggResult<K, V>>)
    requires ReturnsRows(rows, idOf, ids, values) && Grouped(list, values, idOf)
    ensures DS.Answers(ResultID, RowLookup(rows), ids, list)
  {
    forall r | r in list
      ensures r.id in ids && RowLookup(rows)(r.id) == Some(r)
    {
      SelectEmpty(values, idOf, r.id);
      var v :| v in values && idOf(v) == r.id;
    }
    forall k | k in ids && RowLookup(rows)(k).Some?
      ensures RowLookup(rows)(k).value in list
    {
      SelectEmpty(values, idOf, k);
      var v :| v in values && idOf(v) == k;
      var r :| r in list && r.id == idOf(v);
      assert r == AggResult(k, rows(k));
    }
  }

  ghost predicate AggregatedStep<K(!new), V(!new)>(rows: K -> seq<V>, idOf: V -> K, ids: seq<K>, list: seq<AggResult<K, V>>) {
    exists values :: ReturnsRows(rows, idOf, ids, values) && Grouped(list, values, idOf)
  }

  /** Every successful fetch along the run grouped a complete answer of the store. */
  ghost predicate AggregatedRun<K(!new), V(!new)>(maxBatch: int, rows: K -> seq<V>, idOf: V -> K,
                                                  s: DL.System<K, AggResult<K, V>>, actions: seq<DL.Action<K, AggResult<K, V>>>)
    requires DL.WellFormed(s.loader)
    decreases |actions|
  {
    actions == [] ||
    ((DS.Fetched(s, actions[0]) ==>
        AggregatedStep(rows, idOf, s.loader.batches[actions[0].b].ids, actions[0].outcome.value))
     && AggregatedRun(maxBatch, rows, idOf, DL.Step(DL.Config(maxBatch, ResultID), s, actions[0]), actions[1..]))
  }

  lemma {:induction false} AggregatedIsAnswered<K(!new), V(!new)>(maxBatch: int, rows: K -> seq<V>, idOf: V -> K,
      s: DL.System<K, AggResult<K, V>>, actions: seq<DL.Action<K, AggResult<K, V>>>)
    requires DL.WellFormed(s.loader) && AggregatedRun(maxBatch, rows, idOf, s, actions)
    ensures DS.AnsweredRun(DL.Config(maxBatch, ResultID), RowLookup(rows), s, actions)
    decreases |actions|
  {
    if actions != [] {
      var a := actions[0];
      if DS.Fetched(s, a) {
        var ids := s.loader.batches[a.b].ids;
        var values :| ReturnsRows(rows, idOf, ids, values) && Grouped(a.outcome.value, values, idOf);
        GroupedAnswers(rows, idOf, ids, values, a.outcome.value);
      }
      AggregatedIsAnswered(maxBatch, rows, idOf, DL.Step(DL.Config(maxBatch, ResultID), s, a), actions[1..]);
    }
  }

  /** For every schedule, a completed FetchAggregate returns exactly the stored values of its ID, in order. */
  lemma FetchAggregateRefinesFilter<K(!new), V(!new)>(maxBatch: int, rows: K -> seq<V>, idOf: V -> K,
      actions: seq<DL.Action<K, AggResult<K, V>>>, c: DL.CallID)
    requires AggregatedRun(maxBatch, rows, idOf, DL.Init(), actions)
    requires var s := DL.Run(DL.Config(maxBatch, ResultID), actions); c in s.calls && s.calls[c].Returned?
    ensures var call := DL.Run(DL.Config(maxBatch, ResultID), actions).calls[c];
            Aggregate(call.value) == if call.err.None? then rows(call.id) else []
  {
    AggregatedIsAnswered(maxBatch, rows, idOf, DL.Init(), actions);
    DS.FetchOneRefinesLookup(DL.Config(maxBatch, ResultID), RowLookup(rows), actions, c);
  }
}
