/**
 The batching loader on values: its cache of results, its batches in the order they were started, and
 which batch still collects IDs. A run interleaves FetchOne calls, timers, fetches and returns.
 */
module DataLoader {
  import opened Common

  type Error = string

  type CallID = nat

  /** One cached result; done is its closed channel. */
  datatype Entry<V> = Entry(value: Option<V>, err: Option<Error>, done: bool)

  /** Pending until its timer fires, Fetching while FetchFunc runs, Finished once its results are published. */
  datatype BatchPhase = Pending | Fetching | Finished

  datatype Batch<K> = Batch(ids: seq<K>, phase: BatchPhase)

  datatype Loader<K, V> = Loader(cache: map<K, Entry<V>>, batches: seq<Batch<K>>, current: Option<nat>)

  predicate WellFormed<K(==), V>(l: Loader<K, V>) {
    l.current.Some? ==> l.current.value < |l.batches|
  }

  /** Start a batch if none is collecting. */
  function StartBatch<K(==), V>(l: Loader<K, V>): (r: Loader<K, V>)
    requires WellFormed(l)
    ensures WellFormed(r) && r.current.Some?
  {
    if l.current.Some? then l
    else l.(batches := l.batches + [Batch([], Pending)], current := Some(|l.batches|))
  }

  /** Put a new ID into the collecting batch; a full batch stops collecting. */
  function AddID<K(==), V>(maxBatch: int, l: Loader<K, V>, id: K): (r: Loader<K, V>)
    requires WellFormed(l) && l.current.Some?
    ensures WellFormed(r)
  {
    var b := l.current.value;
    var ids := l.batches[b].ids + [id];
    Loader(l.cache[id := Entry(None, None, false)], l.batches[b := l.batches[b].(ids := ids)],
           if |ids| >= maxBatch then None else Some(b))
  }

  /** FetchOne's critical section. */
  function Request<K(==), V>(maxBatch: int, l: Loader<K, V>, id: K): (r: Loader<K, V>)
    requires WellFormed(l)
    ensures WellFormed(r)
  {
    if id in l.cache then l else AddID(maxBatch, StartBatch(l), id)
  }

  /** fetchAll's first critical section, run by the timer of batch b. */
  function Detach<K(==), V>(l: Loader<K, V>, b: nat): (r: Loader<K, V>)
    requires WellFormed(l) && b < |l.batches|
    ensures WellFormed(r)
  {
    l.(current := if l.current == Some(b) then None else l.current,
       batches := l.batches[b := l.batches[b].(phase := Fetching)])
  }

  /** Match returned values to cached results, in order; a value whose ID was never requested is ignored. */
  function StoreValues<K(==), V>(cache: map<K, Entry<V>>, idOf: V -> K, values: seq<V>): map<K, Entry<V>> {
    if values == [] then cache
    else StoreOne(StoreValues(cache, idOf, values[..|values| - 1]), idOf, values[|values| - 1])
  }

  function StoreOne<K(==), V>(cache: map<K, Entry<V>>, idOf: V -> K, val: V): map<K, Entry<V>> {
    if idOf(val) in cache then cache[idOf(val) := cache[idOf(val)].(value := Some(val))] else cache
  }

  /** Close the channels of ids, first setting err if the fetch failed. */
  function CloseAll<K(==), V>(cache: map<K, Entry<V>>, ids: seq<K>, err: Option<Error>): map<K, Entry<V>> {
    map k | k in cache :: if k in ids then cache[k].(done := true, err := if err.Some? then err else cache[k].err)
                          else cache[k]
  }

  /** fetchAll's last critical section. */
  function Deliver<K(==), V>(l: Loader<K, V>, b: nat, idOf: V -> K, outcome: Result<seq<V>, Error>): (r: Loader<K, V>)
    requires WellFormed(l) && b < |l.batches|
    ensures WellFormed(r)
  {
    var ids := l.batches[b].ids;
    l.(batches := l.batches[b := l.batches[b].(phase := Finished)],
       cache := match outcome
                case Ok(values) => CloseAll(StoreValues(l.cache, idOf, values), ids, None)
                case Err(e) => CloseAll(l.cache, ids, Some(e)))
  }

  datatype Call<K, V> =
    | Waiting(id: K)
    | Returned(id: K, value: Option<V>, err: Option<Error>)
    | ContextDone(id: K)

  datatype System<K, V> = System(loader: Loader<K, V>, calls: map<CallID, Call<K, V>>)

  datatype Action<K, V> =
    | FetchOne(c: CallID, id: K)
    | TimerFires(b: nat)
    | FetchReturns(b: nat, outcome: Result<seq<V>, Error>)
    | CallReturns(c: CallID)
    | CallCancelled(c: CallID)

  datatype Config<!K, !V> = Config(maxBatch: int, idOf: V -> K)

  function Init<K, V>(): System<K, V> {
    System(Loader(map[], [], None), map[])
  }

  predicate Enabled<K(==), V(==)>(s: System<K, V>, a: Action<K, V>) {
    match a
    case FetchOne(c, _) => c !in s.calls
    case TimerFires(b) => b < |s.loader.batches| && s.loader.batches[b].phase.Pending?
    case FetchReturns(b, _) => b < |s.loader.batches| && s.loader.batches[b].phase.Fetching?
    case CallReturns(c) =>
      c in s.calls && s.calls[c].Waiting? && s.calls[c].id in s.loader.cache && s.loader.cache[s.calls[c].id].done
    case CallCancelled(c) => c in s.calls && s.calls[c].Waiting?
  }

  function Step<K(==), V(==)>(cfg: Config<K, V>, s: System<K, V>, a: Action<K, V>): (r: System<K, V>)
    requires WellFormed(s.loader)
    ensures WellFormed(r.loader)
  {
    if !Enabled(s, a) then s
    else
      match a
      case FetchOne(c, id) => System(Request(cfg.maxBatch, s.loader, id), s.calls[c := Waiting(id)])
      case TimerFires(b) => s.(loader := Detach(s.loader, b))
      case FetchReturns(b, outcome) => s.(loader := Deliver(s.loader, b, cfg.idOf, outcome))
      case CallReturns(c) =>
        var entry := s.loader.cache[s.calls[c].id];
        s.(calls := s.calls[c := Returned(s.calls[c].id, entry.value, entry.err)])
      case CallCancelled(c) => s.(calls := s.calls[c := ContextDone(s.calls[c].id)])
  }

  function RunFrom<K(==), V(==)>(cfg: Config<K, V>, s: System<K, V>, actions: seq<Action<K, V>>): (r: System<K, V>)
    requires WellFormed(s.loader)
    ensures WellFormed(r.loader)
    decreases |actions|
  {
    if actions == [] then s else RunFrom(cfg, Step(cfg, s, actions[0]), actions[1..])
  }

  function Run<K(==), V(==)>(cfg: Config<K, V>, actions: seq<Action<K, V>>): System<K, V> {
    RunFrom(cfg, Init(), actions)
  }
}
