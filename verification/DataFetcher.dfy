/**
 The loader as the program keeps it: result objects shared between the cache and the batches, and updated
 in place. Each method is one critical section, and does on the heap what the corresponding function of
 DataLoader does on values.
 */
module DataFetcher {
  import opened Common
  import DL = DataLoader
  import DS = DataLoaderSafety

  class Result<K, V> {
    const id: K
    var value: Option<V>
    var err: Option<DL.Error>
    var done: bool

    constructor (id: K)
      ensures this.id == id && value == None && err == None && !done
    {
      this.id := id;
      value, err, done := None, None, false;
    }

    ghost function View(): DL.Entry<V>
      reads this
    {
      DL.Entry(value, err, done)
    }
  }

  class Batch<K, V> {
    var ids: seq<K>
    var results: seq<Result<K, V>>

    constructor ()
      ensures ids == [] && results == []
    {
      ids, results := [], [];
    }

    /** Appends to ids and results in step. */
    method Add(id: K) returns (res: Result<K, V>)
      modifies this
      ensures fresh(res) && res.id == id && res.View() == DL.Entry(None, None, false)
      ensures ids == old(ids) + [id] && results == old(results) + [res]
    {
      res := new Result(id);
      results := results + [res];
      ids := ids + [id];
    }
  }

  class Fetcher<K(==,!new), V> {
    const maxBatch: int
    const idOf: V -> K
    var cache: map<K, Result<K, V>>
    var currentBatch: Batch?<K, V>
    ghost var batches: seq<Batch<K, V>>       // every batch so far, oldest first
    ghost var phases: seq<DL.BatchPhase>
    ghost var current: nat                    // index of currentBatch, when there is one

    ghost predicate Valid()
      reads this, cache.Values, batches
    {
      && |phases| == |batches|
      && (forall k :: k in cache ==> cache[k].id == k)
      && (forall i, j :: 0 <= i < j < |batches| ==> batches[i] != batches[j])
      && (forall i :: 0 <= i < |batches| ==> Parallel(batches[i]))
      && (currentBatch != null ==> current < |batches| && batches[current] == currentBatch)
    }

    /** ids and results of a batch describe the same cached results. */
    ghost predicate Parallel(b: Batch<K, V>)
      reads this, b
    {
      && |b.results| == |b.ids|
      && (forall i :: 0 <= i < |b.ids| ==> b.ids[i] in cache && cache[b.ids[i]] == b.results[i])
    }

    ghost function CacheView(): map<K, DL.Entry<V>>
      reads this, cache.Values
    {
      map k | k in cache :: cache[k].View()
    }

    ghost function BatchesView(): seq<DL.Batch<K>>
      requires |phases| == |batches|
      reads this, batches
    {
      seq(|batches|, i requires 0 <= i < |batches| && |phases| == |batches| reads this, batches
                     => DL.Batch(batches[i].ids, phases[i]))
    }

    ghost function View(): (l: DL.Loader<K, V>)
      requires Valid()
      reads this, cache.Values, batches
      ensures DL.WellFormed(l)
    {
      DL.Loader(CacheView(), BatchesView(), if currentBatch == null then None else Some(current))
    }

    constructor (maxBatch: int, idOf: V -> K)
      ensures Valid() && View() == DL.Loader(map[], [], None)
      ensures this.maxBatch == maxBatch && this.idOf == idOf
    {
      this.maxBatch := maxBatch;
      this.idOf := idOf;
      cache, currentBatch, batches, phases, current := map[], null, [], [], 0;
    }

    method StartBatch()
      requires Valid() && currentBatch == null
      modifies this`currentBatch, this`batches, this`phases, this`current
      ensures Valid() && View() == DL.StartBatch(old(View()))
      ensures fresh(currentBatch) && cache == old(cache)
    {
      var b := new Batch();
      currentBatch, current := b, |batches|;
      batches := batches + [b];
      phases := phases + [DL.Pending];
    }

    method Append(id: K) returns (res: Result<K, V>)
      requires Valid() && currentBatch != null && id !in cache
      modifies this`cache, currentBatch
      ensures Valid() && currentBatch.ids == old(currentBatch.ids) + [id]
      ensures CacheView() == old(CacheView())[id := DL.Entry(None, None, false)]
      ensures BatchesView() == old(BatchesView())[current := DL.Batch(currentBatch.ids, phases[current])]
      ensures id in cache && res == cache[id]
    {
      res := currentBatch.Add(id);
      cache := cache[id := res];
    }

    /** The rest of FetchOne for a new ID: put it into the collecting batch, and stop collecting when that is full. */
    method AddID(id: K) returns (res: Result<K, V>)
      requires Valid() && currentBatch != null && id !in cache
      modifies this`cache, this`currentBatch, currentBatch
      ensures Valid() && View() == DL.AddID(maxBatch, old(View()), id)
      ensures id in cache && res == cache[id]
    {
      res := Append(id);
      if |currentBatch.ids| >= maxBatch {
        currentBatch := null;
      }
    }

    /** FetchOne up to the point where it waits. */
    method FetchOne(id: K) returns (res: Result<K, V>)
      requires Valid()
      modifies this, currentBatch
      ensures Valid() && View() == DL.Request(maxBatch, old(View()), id)
      ensures id in cache && res == cache[id]
    {
      if id in cache {
        return cache[id];
      }
      if currentBatch == null {
        StartBatch();
      }
      res := AddID(id);
    }

    /** fetchAll before the fetch: batch is the one its timer was set for. */
    method BeginFetch(batch: Batch<K, V>, ghost b: nat)
      requires Valid() && b < |batches| && batches[b] == batch
      modifies this`currentBatch, this`phases
      ensures Valid() && View() == DL.Detach(old(View()), b)
    {
      if currentBatch == batch {
        currentBatch := null;
      }
      phases := phases[b := DL.Fetching];
    }

    method StoreValues(values: seq<V>)
      requires Valid()
      modifies cache.Values`value
      ensures Valid() && CacheView() == DL.StoreValues(old(CacheView()), idOf, values)
    {
      for i := 0 to |values|
        invariant Valid()
        invariant CacheView() == DL.StoreValues(old(CacheView()), idOf, values[..i])
      {
        assert values[..i + 1][..i] == values[..i];
        StoreOne(values[i]);
      }
      assert values[..|values|] == values;
    }

    method StoreOne(val: V)
      requires Valid()
      modifies cache.Values`value
      ensures Valid() && CacheView() == DL.StoreOne(old(CacheView()), idOf, val)
    {
      var id := idOf(val);
      if id in cache {
        cache[id].value := Some(val);
      }
    }

    /** Close the channels of a batch, which must all be open: closing one twice would panic. */
    method CloseResults(batch: Batch<K, V>, err: Option<DL.Error>)
      requires Valid() && batch in batches
      requires forall i :: 0 <= i < |batch.results| ==> !batch.results[i].done
      requires forall i, j :: 0 <= i < j < |batch.ids| ==> batch.ids[i] != batch.ids[j]
      modifies cache.Values
      ensures Valid() && CacheView() == DL.CloseAll(old(CacheView()), batch.ids, err)
    {
      for i := 0 to |batch.results|
        invariant Valid()
        invariant CacheView() == DL.CloseAll(old(CacheView()), batch.ids[..i], err)
        invariant forall j :: i <= j < |batch.results| ==> !batch.results[j].done
      {
        assert batch.ids[..i + 1] == batch.ids[..i] + [batch.ids[i]];
        CloseAllStep(old(CacheView()), batch.ids[..i], batch.ids[i], err);
        CloseResult(batch.results[i], err);
      }
      assert batch.ids[..|batch.results|] == batch.ids;
    }

    method CloseResult(res: Result<K, V>, err: Option<DL.Error>)
      requires Valid() && res.id in cache && cache[res.id] == res && !res.done
      modifies res`done, res`err
      ensures Valid() && res.done
      ensures CacheView() == old(CacheView())[res.id := CloseEntry(old(CacheView())[res.id], err)]
    {
      if err.Some? {
        res.err := err;
      }
      assert !res.done;
      res.done := true;
    }

    static function CloseEntry(e: DL.Entry<V>, err: Option<DL.Error>): DL.Entry<V> {
      e.(done := true, err := if err.Some? then err else e.err)
    }

    static lemma CloseAllStep(cache: map<K, DL.Entry<V>>, ids: seq<K>, k: K, err: Option<DL.Error>)
      requires k in cache
      ensures var closed := DL.CloseAll(cache, ids, err);
              DL.CloseAll(cache, ids + [k], err) == closed[k := CloseEntry(closed[k], err)]
    {
      var closed := DL.CloseAll(cache, ids, err);
      var all := DL.CloseAll(cache, ids + [k], err);
      forall x | x in cache
        ensures all[x] == closed[k := CloseEntry(closed[k], err)][x]
      {
        assert x in ids + [k] <==> x in ids || x == k;
      }
    }

    /** In a reachable state, the results of a batch that is being fetched are distinct and open. */
    lemma FetchingResultsAreOpen(b: nat)
      requires Valid() && DS.LoaderInv(maxBatch, View()) && b < |batches| && phases[b] == DL.Fetching
      ensures forall i :: 0 <= i < |batches[b].results| ==> !batches[b].results[i].done
      ensures forall i, j :: 0 <= i < j < |batches[b].ids| ==> batches[b].ids[i] != batches[b].ids[j]
    {
      var l := View();
      assert Parallel(batches[b]) && l.batches[b].ids == batches[b].ids;
      forall i | 0 <= i < |batches[b].ids|
        ensures !batches[b].results[i].done
        ensures forall j :: 0 <= j < |batches[b].ids| && batches[b].ids[j] == batches[b].ids[i] ==> j == i
      {
        var k := batches[b].ids[i];
        assert DS.At(l, b, i, k);
        assert l.cache[k].done == batches[b].results[i].done;
        assert forall j :: 0 <= j < |batches[b].ids| && batches[b].ids[j] == k ==> DS.At(l, b, j, k);
      }
    }

    method Publish(batch: Batch<K, V>, outcome: Common.Result<seq<V>, DL.Error>)
      requires Valid() && batch in batches
      requires forall i :: 0 <= i < |batch.results| ==> !batch.results[i].done
      requires forall i, j :: 0 <= i < j < |batch.ids| ==> batch.ids[i] != batch.ids[j]
      modifies cache.Values
      ensures Valid()
      ensures CacheView() == match outcome
                             case Ok(values) => DL.CloseAll(DL.StoreValues(old(CacheView()), idOf, values), batch.ids, None)
                             case Err(e) => DL.CloseAll(old(CacheView()), batch.ids, Some(e))
    {
      match outcome {
        case Ok(values) =>
          StoreValues(values);
          CloseResults(batch, None);
        case Err(e) =>
          CloseResults(batch, Some(e));
      }
    }

    /** fetchAll after the fetch. */
    method Deliver(batch: Batch<K, V>, ghost b: nat, outcome: Common.Result<seq<V>, DL.Error>)
      requires Valid() && b < |batches| && batches[b] == batch
      requires forall i :: 0 <= i < |batch.results| ==> !batch.results[i].done
      requires forall i, j :: 0 <= i < j < |batch.ids| ==> batch.ids[i] != batch.ids[j]
      modifies this`phases, cache.Values
      ensures Valid() && View() == DL.Deliver(old(View()), b, idOf, outcome)
    {
      ghost var before := View();
      Publish(batch, outcome);
      phases := phases[b := DL.Finished];
      assert BatchesView() == before.batches[b := before.batches[b].(phase := DL.Finished)];
    }

    /** The same in any state the protocol reaches: no channel is closed twice. */
    method EndFetch(batch: Batch<K, V>, ghost b: nat, outcome: Common.Result<seq<V>, DL.Error>)
      requires Valid() && DS.LoaderInv(maxBatch, View())
      requires b < |batches| && batches[b] == batch && phases[b] == DL.Fetching
      modifies this`phases, cache.Values
      ensures Valid() && View() == DL.Deliver(old(View()), b, idOf, outcome)
    {
      FetchingResultsAreOpen(b);
      Deliver(batch, b, outcome);
    }
  }
}
