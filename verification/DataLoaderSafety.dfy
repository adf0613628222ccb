/** What batching and caching preserve, over every schedule. */
module DataLoaderSafety {
  import opened Common
  import opened DataLoader

  // ---- Structure: where IDs are, and whose channels are closed ----

  ghost predicate At<K(!new), V>(l: Loader<K, V>, b: int, i: int, k: K) {
    0 <= b < |l.batches| && 0 <= i < |l.batches[b].ids| && l.batches[b].ids[i] == k
  }

  /** Every cached ID is in exactly one place of exactly one batch, and nothing else is in a batch. */
  ghost predicate Placed<K(!new), V>(l: Loader<K, V>) {
    && (forall b, i, k :: At(l, b, i, k) ==> k in l.cache)
    && (forall k :: k in l.cache ==> exists b, i :: At(l, b, i, k))
    && (forall b, i, b', i', k :: At(l, b, i, k) && At(l, b', i', k) ==> b == b' && i == i')
  }

  /** A result is done exactly when its batch is finished; before that it carries no error. */
  ghost predicate DoneWithBatch<K(!new), V>(l: Loader<K, V>) {
    && (forall b, i, k :: At(l, b, i, k) && k in l.cache ==> (l.cache[k].done <==> l.batches[b].phase.Finished?))
    && (forall k :: k in l.cache && !l.cache[k].done ==> l.cache[k].err.None?)
  }

  ghost predicate Sized<K(!new), V>(maxBatch: int, l: Loader<K, V>) {
    && (l.current.Some? ==> l.current.value < |l.batches| && l.batches[l.current.value].phase.Pending?)
    && (maxBatch >= 1 ==> forall b :: 0 <= b < |l.batches| ==>
          |l.batches[b].ids| <= maxBatch && (l.current == Some(b) ==> |l.batches[b].ids| < maxBatch))
    && (forall b :: 0 <= b < |l.batches| && l.batches[b].phase.Pending? && l.current != Some(b) ==>
          |l.batches[b].ids| >= maxBatch)
  }

  ghost predicate LoaderInv<K(!new), V>(maxBatch: int, l: Loader<K, V>) {
    Placed(l) && DoneWithBatch(l) && Sized(maxBatch, l)
  }

  ghost predicate Inv<K(!new), V>(cfg: Config<K, V>, s: System<K, V>) {
    LoaderInv(cfg.maxBatch, s.loader) && forall c :: c in s.calls ==> s.calls[c].id in s.loader.cache
  }

  lemma StartBatchKeepsInv<K(!new), V>(maxBatch: int, l: Loader<K, V>)
    requires LoaderInv(maxBatch, l)
    ensures LoaderInv(maxBatch, StartBatch(l))
  {
    var l' := StartBatch(l);
    assert forall b, i, k :: At(l', b, i, k) <==> At(l, b, i, k);
  }

  /** The place a new ID gets is the end of the current batch; every other place stays. */
  lemma AddIDPlaces<K(!new), V>(maxBatch: int, l: Loader<K, V>, id: K)
    requires WellFormed(l) && l.current.Some?
    ensures var l' := AddID(maxBatch, l, id);
            var last := |l.batches[l.current.value].ids|;
            forall b, i, k :: At(l', b, i, k) <==> At(l, b, i, k) || (b == l.current.value && i == last && k == id)
  {
  }

  lemma AddIDKeepsInv<K(!new), V>(maxBatch: int, l: Loader<K, V>, id: K)
    requires LoaderInv(maxBatch, l) && l.current.Some? && id !in l.cache
    ensures LoaderInv(maxBatch, AddID(maxBatch, l, id))
  {
    var l' := AddID(maxBatch, l, id);
    AddIDPlaces(maxBatch, l, id);
    forall k | k in l'.cache
      ensures exists b, i :: At(l', b, i, k)
    {
      if k == id {
        assert At(l', l.current.value, |l.batches[l.current.value].ids|, id);
      } else {
        var b, i :| At(l, b, i, k);
        assert At(l', b, i, k);
      }
    }
  }

  lemma RequestKeepsInv<K(!new), V>(maxBatch: int, l: Loader<K, V>, id: K)
    requires LoaderInv(maxBatch, l)
    ensures LoaderInv(maxBatch, Request(maxBatch, l, id))
  {
    if id !in l.cache {
      StartBatchKeepsInv(maxBatch, l);
      AddIDKeepsInv(maxBatch, StartBatch(l), id);
    }
  }

  lemma SamePlaces<K(!new), V>(l: Loader<K, V>, l': Loader<K, V>)
    requires Placed(l) && l'.cache.Keys == l.cache.Keys && |l'.batches| == |l.batches|
    requires forall b :: 0 <= b < |l.batches| ==> l'.batches[b].ids == l.batches[b].ids
    ensures Placed(l') && forall b, i, k :: At(l', b, i, k) <==> At(l, b, i, k)
  {
    assert forall b, i, k :: At(l', b, i, k) <==> At(l, b, i, k);
    forall k | k in l'.cache
      ensures exists b, i :: At(l', b, i, k)
    {
      var b, i :| At(l, b, i, k);
      assert At(l', b, i, k);
    }
  }

  lemma DetachKeepsInv<K(!new), V>(maxBatch: int, l: Loader<K, V>, b: nat)
    requires LoaderInv(maxBatch, l) && b < |l.batches| && l.batches[b].phase.Pending?
    ensures LoaderInv(maxBatch, Detach(l, b))
  {
    SamePlaces(l, Detach(l, b));
  }

  /** The last value with the given ID. */
  function LastFor<K(==), V>(idOf: V -> K, values: seq<V>, k: K): Option<V> {
    if values == [] then None
    else
      var last := values[|values| - 1];
      if idOf(last) == k then Some(last) else LastFor(idOf, values[..|values| - 1], k)
  }

  lemma {:induction false} LastForMeaning<K, V>(idOf: V -> K, values: seq<V>, k: K)
    ensures var last := LastFor(idOf, values, k);
            if last.None? then forall v :: v in values ==> idOf(v) != k else last.value in values && idOf(last.value) == k
  {
    if values != [] {
      var init, last := values[..|values| - 1], values[|values| - 1];
      LastForMeaning(idOf, init, k);
      assert forall v :: v in values <==> v in init || v == last;
    }
  }

  /** Storing a fetched list leaves each cached result with the last value of its ID, if there is one. */
  lemma {:induction false} StoreValuesAt<K(!new), V>(cache: map<K, Entry<V>>, idOf: V -> K, values: seq<V>, k: K)
    requires k in cache
    ensures var last := LastFor(idOf, values, k);
            && StoreValues(cache, idOf, values).Keys == cache.Keys
            && StoreValues(cache, idOf, values)[k] == if last.None? then cache[k] else cache[k].(value := last)
  {
    if values != [] {
      StoreValuesAt(cache, idOf, values[..|values| - 1], k);
    }
  }

  lemma StoreValuesKeys<K(!new), V>(cache: map<K, Entry<V>>, idOf: V -> K, values: seq<V>)
    ensures StoreValues(cache, idOf, values).Keys == cache.Keys
  {
    if values != [] {
      StoreValuesKeys(cache, idOf, values[..|values| - 1]);
    }
  }

  /** After a delivery: results of the batch are done, all others keep done and err. */
  lemma DeliverFlags<K(!new), V>(l: Loader<K, V>, b: nat, idOf: V -> K, outcome: Result<seq<V>, Error>)
    requires WellFormed(l) && b < |l.batches|
    ensures var l' := Deliver(l, b, idOf, outcome);
            && l'.cache.Keys == l.cache.Keys
            && (forall k :: k in l.cache && k in l.batches[b].ids ==>
                  l'.cache[k].done && l'.cache[k].err == if outcome.Err? then Some(outcome.error) else l.cache[k].err)
            && (forall k :: k in l.cache && k !in l.batches[b].ids ==>
                  l'.cache[k].done == l.cache[k].done && l'.cache[k].err == l.cache[k].err)
  {
    if outcome.Ok? {
      StoreValuesKeys(l.cache, idOf, outcome.value);
      forall k | k in l.cache
        ensures var stored := StoreValues(l.cache, idOf, outcome.value);
                k in stored && stored[k].done == l.cache[k].done && stored[k].err == l.cache[k].err
      {
        StoreValuesAt(l.cache, idOf, outcome.value, k);
      }
    }
  }

  lemma InBatchIsAt<K(!new), V>(l: Loader<K, V>, b: nat, k: K)
    requires b < |l.batches|
    ensures k in l.batches[b].ids <==> exists i :: At(l, b, i, k)
  {
    if k in l.batches[b].ids {
      var i :| 0 <= i < |l.batches[b].ids| && l.batches[b].ids[i] == k;
      assert At(l, b, i, k);
    }
  }

  lemma DeliverKeepsInv<K(!new), V>(maxBatch: int, l: Loader<K, V>, b: nat, idOf: V -> K, outcome: Result<seq<V>, Error>)
    requires LoaderInv(maxBatch, l) && b < |l.batches| && l.batches[b].phase.Fetching?
    ensures LoaderInv(maxBatch, Deliver(l, b, idOf, outcome))
  {
    var l' := Deliver(l, b, idOf, outcome);
    DeliverFlags(l, b, idOf, outcome);
    SamePlaces(l, l');
    forall b', i, k | At(l', b', i, k) && k in l'.cache
      ensures l'.cache[k].done <==> l'.batches[b'].phase.Finished?
    {
      InBatchIsAt(l, b, k);
      assert At(l, b', i, k);
    }
  }

  lemma StepKeepsInv<K(!new), V>(cfg: Config<K, V>, s: System<K, V>, a: Action<K, V>)
    requires Inv(cfg, s)
    ensures Inv(cfg, Step(cfg, s, a))
  {
    if Enabled(s, a) {
      match a
      case FetchOne(_, id) => RequestKeepsInv(cfg.maxBatch, s.loader, id);
      case TimerFires(b) => DetachKeepsInv(cfg.maxBatch, s.loader, b);
      case FetchReturns(b, outcome) =>
        DeliverKeepsInv(cfg.maxBatch, s.loader, b, cfg.idOf, outcome);
        DeliverFlags(s.loader, b, cfg.idOf, outcome);
      case _ =>
    }
  }

  lemma {:induction false} RunFromKeepsInv<K(!new), V>(cfg: Config<K, V>, s: System<K, V>, actions: seq<Action<K, V>>)
    requires Inv(cfg, s)
    ensures Inv(cfg, RunFrom(cfg, s, actions))
    decreases |actions|
  {
    if actions != [] {
      StepKeepsInv(cfg, s, actions[0]);
      RunFromKeepsInv(cfg, Step(cfg, s, actions[0]), actions[1..]);
    }
  }

  lemma RunKeepsInv<K(!new), V>(cfg: Config<K, V>, actions: seq<Action<K, V>>)
    ensures Inv(cfg, Run(cfg, actions))
  {
    RunFromKeepsInv(cfg, Init(), actions);
  }

  /** In every run, each requested ID is in exactly one place of exactly one batch. */
  lemma EachIDInOneBatch<K(!new), V>(cfg: Config<K, V>, actions: seq<Action<K, V>>, c: CallID)
    requires c in Run(cfg, actions).calls
    ensures var l := Run(cfg, actions).loader;
            var id := Run(cfg, actions).calls[c].id;
            && (exists b, i :: At(l, b, i, id))
            && (forall b, i, b', i' :: At(l, b, i, id) && At(l, b', i', id) ==> b == b' && i == i')
  {
    RunKeepsInv(cfg, actions);
  }

  /** No batch grows beyond MaxBatch. */
  lemma BatchesRespectMaxBatch<K(!new), V>(cfg: Config<K, V>, actions: seq<Action<K, V>>, b: nat)
    requires cfg.maxBatch >= 1 && b < |Run(cfg, actions).loader.batches|
    ensures |Run(cfg, actions).loader.batches[b].ids| <= cfg.maxBatch
  {
    RunKeepsInv(cfg, actions);
  }

  /** Requests are batched: a batch whose timer has not fired takes the next new IDs until it has MaxBatch of them. */
  lemma {:induction false} PendingBatchesFillUp<K(!new), V>(cfg: Config<K, V>, actions: seq<Action<K, V>>, b: nat, c: CallID, id: K)
    requires var s := Run(cfg, actions);
             && b < |s.loader.batches| && s.loader.batches[b].phase.Pending? && |s.loader.batches[b].ids| < cfg.maxBatch
             && c !in s.calls && id !in s.loader.cache
    ensures var s := Run(cfg, actions);
            var l := Step(cfg, s, FetchOne(c, id)).loader;
            |l.batches| == |s.loader.batches| && l.batches[b] == Batch(s.loader.batches[b].ids + [id], Pending)
  {
    RunKeepsInv(cfg, actions);
  }

  /** A request for a cached ID starts no fetch and changes no batch; a new one waits in a batch that is not yet fetched. */
  lemma RequestOutcome<K(!new), V>(cfg: Config<K, V>, actions: seq<Action<K, V>>, c: CallID, id: K)
    requires c !in Run(cfg, actions).calls
    ensures var s := Run(cfg, actions);
            var t := Step(cfg, s, FetchOne(c, id));
            && c in t.calls && t.calls[c] == Waiting(id)
            && (id in s.loader.cache ==> t.loader == s.loader)
            && (id !in s.loader.cache ==>
                  && t.loader.cache == s.loader.cache[id := Entry(None, None, false)]
                  && exists b, i :: At(t.loader, b, i, id) && t.loader.batches[b].phase.Pending?)
  {
    var s := Run(cfg, actions);
    RunKeepsInv(cfg, actions);
    if id !in s.loader.cache {
      var l := StartBatch(s.loader);
      assert At(AddID(cfg.maxBatch, l, id), l.current.value, |l.batches[l.current.value].ids|, id);
      assert l.batches[l.current.value].phase.Pending?;
    }
  }

  /** A failed fetch gives its error to exactly the results of its batch, and closes them. */
  lemma {:induction false} FailedFetchOutcome<K(!new), V>(cfg: Config<K, V>, actions: seq<Action<K, V>>, b: nat, e: Error, k: K)
    requires Enabled(Run(cfg, actions), FetchReturns(b, Err(e))) && k in Run(cfg, actions).loader.cache
    ensures var s := Run(cfg, actions);
            var l := Step(cfg, s, FetchReturns(b, Err(e))).loader;
            k in l.cache && l.cache[k] == if k in s.loader.batches[b].ids then Entry(s.loader.cache[k].value, Some(e), true)
                                          else s.loader.cache[k]
  {
  }

  /** A call returns what its result holds once that is done, and only then. */
  lemma CallOutcome<K(!new), V>(cfg: Config<K, V>, s: System<K, V>, c: CallID)
    requires WellFormed(s.loader) && c in s.calls && s.calls[c].Waiting? && s.calls[c].id in s.loader.cache
    ensures var e := s.loader.cache[s.calls[c].id];
            var t := Step(cfg, s, CallReturns(c));
            c in t.calls && t.calls[c] == if e.done then Returned(s.calls[c].id, e.value, e.err) else Waiting(s.calls[c].id)
  {
  }

  /**
   When a fetch of batch b returns, every channel it closes is still open, each is closed once,
   and batch b can never be delivered again.
   */
  lemma ChannelsCloseOnce<K(!new), V>(cfg: Config<K, V>, actions: seq<Action<K, V>>, b: nat,
                                outcome: Result<seq<V>, Error>, after: seq<Action<K, V>>)
    requires Enabled(Run(cfg, actions), FetchReturns(b, outcome))
    ensures var l := Run(cfg, actions).loader;
            && (forall i :: 0 <= i < |l.batches[b].ids| ==>
                  l.batches[b].ids[i] in l.cache && !l.cache[l.batches[b].ids[i]].done)
            && (forall i, j :: 0 <= i < j < |l.batches[b].ids| ==> l.batches[b].ids[i] != l.batches[b].ids[j])
    ensures var s' := Step(cfg, Run(cfg, actions), FetchReturns(b, outcome));
            forall again :: !Enabled(RunFrom(cfg, s', after), FetchReturns(b, again))
  {
    RunKeepsInv(cfg, actions);
    var l := Run(cfg, actions).loader;
    forall i | 0 <= i < |l.batches[b].ids|
      ensures l.batches[b].ids[i] in l.cache && !l.cache[l.batches[b].ids[i]].done
      ensures forall j :: 0 <= j < |l.batches[b].ids| && l.batches[b].ids[j] == l.batches[b].ids[i] ==> j == i
    {
      var k := l.batches[b].ids[i];
      assert At(l, b, i, k);
      assert forall j :: 0 <= j < |l.batches[b].ids| && l.batches[b].ids[j] == k ==> At(l, b, j, k);
    }
    FinishedForever(cfg, Step(cfg, Run(cfg, actions), FetchReturns(b, outcome)), after, b);
  }

  lemma {:induction false} FinishedForever<K(!new), V>(cfg: Config<K, V>, s: System<K, V>, after: seq<Action<K, V>>, b: nat)
    requires WellFormed(s.loader) && b < |s.loader.batches| && s.loader.batches[b].phase.Finished?
    ensures var l := RunFrom(cfg, s, after).loader; b < |l.batches| && l.batches[b].phase.Finished?
    decreases |after|
  {
    if after != [] {
      FinishedForever(cfg, Step(cfg, s, after[0]), after[1..], b);
    }
  }

  /** Once batch b is no longer the current one, its IDs never change and it never becomes current again. */
  lemma {:induction false} DetachedBatchIsFrozen<K(!new), V>(cfg: Config<K, V>, s: System<K, V>, after: seq<Action<K, V>>, b: nat)
    requires WellFormed(s.loader) && b < |s.loader.batches| && s.loader.current != Some(b)
    ensures var l := RunFrom(cfg, s, after).loader;
            b < |l.batches| && l.batches[b].ids == s.loader.batches[b].ids && l.current != Some(b)
    decreases |after|
  {
    if after != [] {
      DetachedBatchIsFrozen(cfg, Step(cfg, s, after[0]), after[1..], b);
    }
  }

  // ---- Values: batching refines fetching one key ----

  /** FetchFunc returns only values of requested IDs. */
  ghost predicate RequestedOnly<K, V>(idOf: V -> K, ids: seq<K>, values: seq<V>) {
    forall v :: v in values ==> idOf(v) in ids
  }

  /** FetchFunc returns only what a per-key lookup gives, and all of it that was requested. */
  ghost predicate Truthful<K, V>(idOf: V -> K, lookup: K -> Option<V>, ids: seq<K>, values: seq<V>) {
    && (forall v :: v in values ==> lookup(idOf(v)) == Some(v))
    && (forall k :: k in ids && lookup(k).Some? ==> lookup(k).value in values && idOf(lookup(k).value) == k)
  }

  /** FetchFunc is a per-key lookup of the requested IDs; order and repetitions are free. */
  ghost predicate Answers<K, V>(idOf: V -> K, lookup: K -> Option<V>, ids: seq<K>, values: seq<V>) {
    RequestedOnly(idOf, ids, values) && Truthful(idOf, lookup, ids, values)
  }

  ghost predicate Fetched<K, V>(s: System<K, V>, a: Action<K, V>) {
    Enabled(s, a) && a.FetchReturns? && a.outcome.Ok?
  }

  ghost predicate RequestedOnlyRun<K, V>(cfg: Config<K, V>, s: System<K, V>, actions: seq<Action<K, V>>)
    requires WellFormed(s.loader)
    decreases |actions|
  {
    actions == [] ||
    ((Fetched(s, actions[0]) ==>
        RequestedOnly(cfg.idOf, s.loader.batches[actions[0].b].ids, actions[0].outcome.value))
     && RequestedOnlyRun(cfg, Step(cfg, s, actions[0]), actions[1..]))
  }

  ghost predicate AnsweredRun<K, V>(cfg: Config<K, V>, lookup: K -> Option<V>, s: System<K, V>, actions: seq<Action<K, V>>)
    requires WellFormed(s.loader)
    decreases |actions|
  {
    actions == [] ||
    ((Fetched(s, actions[0]) ==>
        Answers(cfg.idOf, lookup, s.loader.batches[actions[0].b].ids, actions[0].outcome.value))
     && AnsweredRun(cfg, lookup, Step(cfg, s, actions[0]), actions[1..]))
  }

  /** A delivery of requested values leaves the results of every other batch alone. */
  lemma DeliverElsewhere<K(!new), V>(l: Loader<K, V>, b: nat, idOf: V -> K, outcome: Result<seq<V>, Error>, k: K)
    requires WellFormed(l) && b < |l.batches| && k in l.cache && k !in l.batches[b].ids
    requires outcome.Ok? ==> RequestedOnly(idOf, l.batches[b].ids, outcome.value)
    ensures k in Deliver(l, b, idOf, outcome).cache && Deliver(l, b, idOf, outcome).cache[k] == l.cache[k]
  {
    if outcome.Ok? {
      StoreValuesAt(l.cache, idOf, outcome.value, k);
      LastForMeaning(idOf, outcome.value, k);
    }
  }

  /** Given that FetchFunc returns only requested IDs, a result never changes once its channel is closed. */
  lemma {:induction false} DoneResultsAreFinal<K(!new), V>(cfg: Config<K, V>, s: System<K, V>, after: seq<Action<K, V>>, k: K)
    requires Inv(cfg, s) && RequestedOnlyRun(cfg, s, after)
    requires k in s.loader.cache && s.loader.cache[k].done
    ensures k in RunFrom(cfg, s, after).loader.cache && RunFrom(cfg, s, after).loader.cache[k] == s.loader.cache[k]
    decreases |after|
  {
    if after != [] {
      RequestedIsHarmless(cfg, s, after[0]);
      StepKeepsDoneExactly(cfg, s, after[0]);
      StepKeepsInv(cfg, s, after[0]);
      DoneResultsAreFinal(cfg, Step(cfg, s, after[0]), after[1..], k);
    }
  }

  /** Open results are empty; closed ones hold the looked-up value, or an error and no value. */
  ghost predicate ValuesInv<K(!new), V>(lookup: K -> Option<V>, s: System<K, V>) {
    && (forall k :: k in s.loader.cache ==> EntryOk(lookup, k, s.loader.cache[k]))
    && (forall c :: c in s.calls && s.calls[c].Returned? ==> OutcomeOk(lookup, s.calls[c]))
  }

  ghost predicate EntryOk<K, V>(lookup: K -> Option<V>, k: K, e: Entry<V>) {
    e.value == if e.done && e.err.None? then lookup(k) else None
  }

  ghost predicate OutcomeOk<K, V>(lookup: K -> Option<V>, call: Call<K, V>)
    requires call.Returned?
  {
    call.value == if call.err.None? then lookup(call.id) else None
  }

  lemma DeliverAnswers<K(!new), V>(l: Loader<K, V>, b: nat, idOf: V -> K, outcome: Result<seq<V>, Error>,
                             lookup: K -> Option<V>, k: K)
    requires WellFormed(l) && b < |l.batches| && k in l.cache && EntryOk(lookup, k, l.cache[k])
    requires k in l.batches[b].ids ==> !l.cache[k].done && l.cache[k].err.None?
    requires outcome.Ok? ==> Answers(idOf, lookup, l.batches[b].ids, outcome.value)
    ensures k in Deliver(l, b, idOf, outcome).cache && EntryOk(lookup, k, Deliver(l, b, idOf, outcome).cache[k])
  {
    DeliverFlags(l, b, idOf, outcome);
    if k !in l.batches[b].ids {
      DeliverElsewhere(l, b, idOf, outcome, k);
    } else if outcome.Ok? {
      StoreValuesAt(l.cache, idOf, outcome.value, k);
      LastForMeaning(idOf, outcome.value, k);
    }
  }

  lemma StepKeepsValues<K(!new), V>(cfg: Config<K, V>, lookup: K -> Option<V>, s: System<K, V>, a: Action<K, V>)
    requires Inv(cfg, s) && ValuesInv(lookup, s)
    requires Fetched(s, a) ==> Answers(cfg.idOf, lookup, s.loader.batches[a.b].ids, a.outcome.value)
    ensures ValuesInv(lookup, Step(cfg, s, a))
  {
    if Enabled(s, a) && a.FetchReturns? {
      DeliverFlags(s.loader, a.b, cfg.idOf, a.outcome);
      forall k | k in s.loader.cache
        ensures k in Step(cfg, s, a).loader.cache && EntryOk(lookup, k, Step(cfg, s, a).loader.cache[k])
      {
        InBatchIsAt(s.loader, a.b, k);
        DeliverAnswers(s.loader, a.b, cfg.idOf, a.outcome, lookup, k);
      }
    }
  }

  lemma {:induction false} RunKeepsValues<K(!new), V>(cfg: Config<K, V>, lookup: K -> Option<V>, s: System<K, V>,
                                                actions: seq<Action<K, V>>)
    requires Inv(cfg, s) && ValuesInv(lookup, s) && AnsweredRun(cfg, lookup, s, actions)
    ensures ValuesInv(lookup, RunFrom(cfg, s, actions))
    decreases |actions|
  {
    if actions != [] {
      StepKeepsInv(cfg, s, actions[0]);
      StepKeepsValues(cfg, lookup, s, actions[0]);
      RunKeepsValues(cfg, lookup, Step(cfg, s, actions[0]), actions[1..]);
    }
  }

  /**
   Refinement: if every successful fetch is a per-key lookup, then for every schedule of calls, timers and fetches
   a FetchOne that completes returns what looking up its one key returns, or the error of a failed fetch and no value.
   */
  lemma FetchOneRefinesLookup<K(!new), V>(cfg: Config<K, V>, lookup: K -> Option<V>, actions: seq<Action<K, V>>, c: CallID)
    requires AnsweredRun(cfg, lookup, Init(), actions)
    requires c in Run(cfg, actions).calls && Run(cfg, actions).calls[c].Returned?
    ensures var call := Run(cfg, actions).calls[c]; call.value == if call.err.None? then lookup(call.id) else None
  {
    RunKeepsValues(cfg, lookup, Init(), actions);
  }

  /** The same run contract without the requirement that only requested IDs are returned. */
  ghost predicate TruthfulRun<K, V>(cfg: Config<K, V>, lookup: K -> Option<V>, s: System<K, V>, actions: seq<Action<K, V>>)
    requires WellFormed(s.loader)
    decreases |actions|
  {
    actions == [] ||
    ((Fetched(s, actions[0]) ==>
        Truthful(cfg.idOf, lookup, s.loader.batches[actions[0].b].ids, actions[0].outcome.value))
     && TruthfulRun(cfg, lookup, Step(cfg, s, actions[0]), actions[1..]))
  }

  /** A value may arrive before its batch is done, but never a wrong one. */
  ghost predicate TrueEntry<K, V>(lookup: K -> Option<V>, k: K, e: Entry<V>) {
    && (e.value.Some? ==> e.value == lookup(k))
    && (e.done && e.err.None? ==> e.value == lookup(k))
  }

  ghost predicate TrueInv<K(!new), V>(lookup: K -> Option<V>, s: System<K, V>) {
    && (forall k :: k in s.loader.cache ==> TrueEntry(lookup, k, s.loader.cache[k]))
    && (forall c :: c in s.calls && s.calls[c].Returned? && s.calls[c].err.None? ==> s.calls[c].value == lookup(s.calls[c].id))
  }

  lemma DeliverTrue<K(!new), V>(l: Loader<K, V>, b: nat, idOf: V -> K, outcome: Result<seq<V>, Error>,
                                lookup: K -> Option<V>, k: K)
    requires WellFormed(l) && b < |l.batches| && k in l.cache && TrueEntry(lookup, k, l.cache[k])
    requires outcome.Ok? ==> Truthful(idOf, lookup, l.batches[b].ids, outcome.value)
    ensures k in Deliver(l, b, idOf, outcome).cache && TrueEntry(lookup, k, Deliver(l, b, idOf, outcome).cache[k])
  {
    DeliverFlags(l, b, idOf, outcome);
    if outcome.Ok? {
      StoreValuesAt(l.cache, idOf, outcome.value, k);
      LastForMeaning(idOf, outcome.value, k);
    }
  }

  lemma StepKeepsTrue<K(!new), V>(cfg: Config<K, V>, lookup: K -> Option<V>, s: System<K, V>, a: Action<K, V>)
    requires Inv(cfg, s) && TrueInv(lookup, s)
    requires Fetched(s, a) ==> Truthful(cfg.idOf, lookup, s.loader.batches[a.b].ids, a.outcome.value)
    ensures TrueInv(lookup, Step(cfg, s, a))
  {
    if Enabled(s, a) && a.FetchReturns? {
      DeliverFlags(s.loader, a.b, cfg.idOf, a.outcome);
      forall k | k in s.loader.cache
        ensures k in Step(cfg, s, a).loader.cache && TrueEntry(lookup, k, Step(cfg, s, a).loader.cache[k])
      {
        DeliverTrue(s.loader, a.b, cfg.idOf, a.outcome, lookup, k);
      }
    }
  }

  lemma {:induction false} RunKeepsTrue<K(!new), V>(cfg: Config<K, V>, lookup: K -> Option<V>, s: System<K, V>,
                                                    actions: seq<Action<K, V>>)
    requires Inv(cfg, s) && TrueInv(lookup, s) && TruthfulRun(cfg, lookup, s, actions)
    ensures TrueInv(lookup, RunFrom(cfg, s, actions))
    decreases |actions|
  {
    if actions != [] {
      StepKeepsInv(cfg, s, actions[0]);
      StepKeepsTrue(cfg, lookup, s, actions[0]);
      RunKeepsTrue(cfg, lookup, Step(cfg, s, actions[0]), actions[1..]);
    }
  }

  /** A FetchOne that completes without an error is a direct fetch of its key, even if other keys' values come along. */
  lemma TruthfulRunsLookUp<K(!new), V>(cfg: Config<K, V>, lookup: K -> Option<V>, actions: seq<Action<K, V>>, c: CallID)
    requires TruthfulRun(cfg, lookup, Init(), actions)
    requires c in Run(cfg, actions).calls && Run(cfg, actions).calls[c].Returned?
    ensures var call := Run(cfg, actions).calls[c]; call.err.None? ==> call.value == lookup(call.id)
  {
    RunKeepsTrue(cfg, lookup, Init(), actions);
  }

  ghost predicate NoErrors<K, V>(s: System<K, V>) {
    && (forall k :: k in s.loader.cache ==> s.loader.cache[k].err.None?)
    && (forall c :: c in s.calls && s.calls[c].Returned? ==> s.calls[c].err.None?)
  }

  lemma {:induction false} RunKeepsNoErrors<K(!new), V>(cfg: Config<K, V>, s: System<K, V>, actions: seq<Action<K, V>>)
    requires WellFormed(s.loader) && NoErrors(s)
    requires forall i :: 0 <= i < |actions| && actions[i].FetchReturns? ==> actions[i].outcome.Ok?
    ensures NoErrors(RunFrom(cfg, s, actions))
    decreases |actions|
  {
    if actions != [] {
      var a := actions[0];
      if Enabled(s, a) && a.FetchReturns? {
        DeliverFlags(s.loader, a.b, cfg.idOf, a.outcome);
      }
      RunKeepsNoErrors(cfg, Step(cfg, s, a), actions[1..]);
    }
  }

  /** Without fetch errors, every completed FetchOne is exactly a direct fetch of its key. */
  lemma ErrorFreeRunsLookUp<K(!new), V>(cfg: Config<K, V>, lookup: K -> Option<V>, actions: seq<Action<K, V>>, c: CallID)
    requires TruthfulRun(cfg, lookup, Init(), actions)
    requires forall i :: 0 <= i < |actions| && actions[i].FetchReturns? ==> actions[i].outcome.Ok?
    requires c in Run(cfg, actions).calls && Run(cfg, actions).calls[c].Returned?
    ensures var call := Run(cfg, actions).calls[c]; call == Returned(call.id, lookup(call.id), None)
  {
    TruthfulRunsLookUp(cfg, lookup, actions, c);
    RunKeepsNoErrors(cfg, Init(), actions);
  }

  // ---- When finished results stay as they are ----

  ghost predicate KeepsDone<K(!new), V>(l: Loader<K, V>, l': Loader<K, V>) {
    forall k :: k in l.cache && l.cache[k].done ==> k in l'.cache && l'.cache[k] == l.cache[k]
  }

  /** For no finished result does the list end with another value than the stored one. */
  ghost predicate Harmless<K(!new), V>(l: Loader<K, V>, idOf: V -> K, values: seq<V>) {
    forall k :: k in l.cache && l.cache[k].done && LastFor(idOf, values, k).Some? ==> LastFor(idOf, values, k) == l.cache[k].value
  }

  /** fetchAll matches values against every cached result, so this is exactly when it leaves finished ones alone. */
  lemma DeliveryKeepsDoneExactly<K(!new), V>(maxBatch: int, l: Loader<K, V>, b: nat, idOf: V -> K, values: seq<V>)
    requires LoaderInv(maxBatch, l) && b < |l.batches| && l.batches[b].phase.Fetching?
    ensures KeepsDone(l, Deliver(l, b, idOf, Ok(values))) <==> Harmless(l, idOf, values)
  {
    forall k | k in l.cache && l.cache[k].done
      ensures var l' := Deliver(l, b, idOf, Ok(values));
              k in l'.cache && (l'.cache[k] == l.cache[k] <==> LastFor(idOf, values, k) in {None, l.cache[k].value})
    {
      StoreValuesAt(l.cache, idOf, values, k);
      InBatchIsAt(l, b, k);
    }
  }

  ghost predicate HarmlessStep<K(!new), V>(cfg: Config<K, V>, s: System<K, V>, a: Action<K, V>) {
    Fetched(s, a) ==> Harmless(s.loader, cfg.idOf, a.outcome.value)
  }

  lemma StepKeepsDoneExactly<K(!new), V>(cfg: Config<K, V>, s: System<K, V>, a: Action<K, V>)
    requires Inv(cfg, s)
    ensures KeepsDone(s.loader, Step(cfg, s, a).loader) <==> HarmlessStep(cfg, s, a)
  {
    if Enabled(s, a) && a.FetchReturns? {
      if a.outcome.Ok? {
        DeliveryKeepsDoneExactly(cfg.maxBatch, s.loader, a.b, cfg.idOf, a.outcome.value);
      } else {
        forall k | k in s.loader.cache && s.loader.cache[k].done
          ensures k !in s.loader.batches[a.b].ids
        {
          InBatchIsAt(s.loader, a.b, k);
        }
      }
    }
  }

  /** Only values of IDs whose results are still open are harmless. */
  lemma RequestedIsHarmless<K(!new), V>(cfg: Config<K, V>, s: System<K, V>, a: Action<K, V>)
    requires Inv(cfg, s)
    requires Fetched(s, a) ==> RequestedOnly(cfg.idOf, s.loader.batches[a.b].ids, a.outcome.value)
    ensures HarmlessStep(cfg, s, a)
  {
    if Fetched(s, a) {
      forall k | k in s.loader.cache && s.loader.cache[k].done
        ensures LastFor(cfg.idOf, a.outcome.value, k).None?
      {
        LastForMeaning(cfg.idOf, a.outcome.value, k);
        InBatchIsAt(s.loader, a.b, k);
      }
    }
  }

  lemma {:induction false} RunOneMore<K(!new), V>(cfg: Config<K, V>, s: System<K, V>, actions: seq<Action<K, V>>, n: nat)
    requires WellFormed(s.loader) && n < |actions|
    ensures RunFrom(cfg, s, actions[..n + 1]) == Step(cfg, RunFrom(cfg, s, actions[..n]), actions[n])
    decreases n
  {
    if n > 0 {
      RunOneMore(cfg, Step(cfg, s, actions[0]), actions[1..], n - 1);
      assert actions[..n + 1][1..] == actions[1..][..n] && actions[..n][1..] == actions[1..][..n - 1];
    }
  }

  /** In the run, every finished result keeps its value and error from the i-th state to the j-th. */
  ghost predicate FinalBetween<K(!new), V>(cfg: Config<K, V>, actions: seq<Action<K, V>>, i: nat, j: nat)
    requires i <= j <= |actions|
  {
    KeepsDone(Run(cfg, actions[..i]).loader, Run(cfg, actions[..j]).loader)
  }

  lemma {:induction false} HarmlessStepsKeep<K(!new), V>(cfg: Config<K, V>, actions: seq<Action<K, V>>, i: nat, j: nat)
    requires i <= j <= |actions|
    requires forall n: nat :: n < |actions| ==> HarmlessStep(cfg, Run(cfg, actions[..n]), actions[n])
    ensures FinalBetween(cfg, actions, i, j)
    decreases j
  {
    if i < j {
      HarmlessStepsKeep(cfg, actions, i, j - 1);
      RunKeepsInv(cfg, actions[..j - 1]);
      StepKeepsDoneExactly(cfg, Run(cfg, actions[..j - 1]), actions[j - 1]);
      RunOneMore(cfg, Init(), actions, j - 1);
    }
  }

  /** A result never changes once its channel is closed, in every run whose deliveries are harmless and in no other. */
  lemma ResultsAreFinalExactly<K(!new), V>(cfg: Config<K, V>, actions: seq<Action<K, V>>)
    ensures (forall i: nat, j: nat :: i <= j <= |actions| ==> FinalBetween(cfg, actions, i, j))
       <==> (forall n: nat :: n < |actions| ==> HarmlessStep(cfg, Run(cfg, actions[..n]), actions[n]))
  {
    if forall n: nat :: n < |actions| ==> HarmlessStep(cfg, Run(cfg, actions[..n]), actions[n]) {
      forall i: nat, j: nat | i <= j <= |actions|
        ensures FinalBetween(cfg, actions, i, j)
      {
        HarmlessStepsKeep(cfg, actions, i, j);
      }
    }
    if forall i: nat, j: nat :: i <= j <= |actions| ==> FinalBetween(cfg, actions, i, j) {
      forall n: nat | n < |actions|
        ensures HarmlessStep(cfg, Run(cfg, actions[..n]), actions[n])
      {
        assert FinalBetween(cfg, actions, n, n + 1);
        RunOneMore(cfg, Init(), actions, n);
        RunKeepsInv(cfg, actions[..n]);
        StepKeepsDoneExactly(cfg, Run(cfg, actions[..n]), actions[n]);
      }
    }
  }

  /** A run written out state by state. */
  lemma {:induction false} Follow<K(!new), V>(cfg: Config<K, V>, s: System<K, V>, actions: seq<Action<K, V>>,
                                              states: seq<System<K, V>>)
    requires |states| == |actions| + 1 && states[0] == s && forall n :: 0 <= n < |states| ==> WellFormed(states[n].loader)
    requires forall n :: 0 <= n < |actions| ==> Step(cfg, states[n], actions[n]) == states[n + 1]
    ensures RunFrom(cfg, s, actions) == states[|actions|]
    decreases |actions|
  {
    if actions != [] {
      Follow(cfg, Step(cfg, s, actions[0]), actions[1..], states[1..]);
    }
  }

  /** Values that are pairs of an ID and a content. */
  const PAIRS: Config<int, (int, int)> := Config(100, (v: (int, int)) => v.0)

  const OPEN: Entry<(int, int)> := Entry(None, None, false)

  function Stored(v: (int, int)): Entry<(int, int)> {
    Entry(Some(v), None, true)
  }

  const FETCH_FIRST: seq<Action<int, (int, int)>> :=
    [FetchOne(0, 1), TimerFires(0), FetchReturns(0, Ok([(1, 10)])), CallReturns(0)]

  const FETCH_SECOND: seq<Action<int, (int, int)>> :=
    [FetchOne(1, 2), TimerFires(1), FetchReturns(1, Ok([(1, 99)])), FetchOne(2, 1), CallReturns(2)]

  const FIRST_PENDING := Loader(map[1 := OPEN], [Batch([1], Pending)], Some(0))
  const FIRST_FETCHING := Loader(map[1 := OPEN], [Batch([1], Fetching)], None)
  const FIRST_DONE := Loader(map[1 := Stored((1, 10))], [Batch([1], Finished)], None)
  const SECOND_PENDING :=
    Loader(map[1 := Stored((1, 10)), 2 := OPEN], [Batch([1], Finished), Batch([2], Pending)], Some(1))
  const SECOND_FETCHING :=
    Loader(map[1 := Stored((1, 10)), 2 := OPEN], [Batch([1], Finished), Batch([2], Fetching)], None)
  const REWRITTEN :=
    Loader(map[1 := Stored((1, 99)), 2 := Entry(None, None, true)], [Batch([1], Finished), Batch([2], Finished)], None)

  lemma FirstSteps()
    ensures Request(100, Init<int, (int, int)>().loader, 1) == FIRST_PENDING
    ensures Deliver(FIRST_FETCHING, 0, PAIRS.idOf, Ok([(1, 10)])) == FIRST_DONE
  {
    assert StartBatch(Init<int, (int, int)>().loader) == Loader(map[], [Batch([], Pending)], Some(0));
    assert [] + [1] == [1] && [Batch([], Pending)][0 := Batch([1], Pending)] == [Batch([1], Pending)];
    var cache := FIRST_FETCHING.cache;
    assert StoreValues(cache, PAIRS.idOf, [(1, 10)]) == StoreOne(cache, PAIRS.idOf, (1, 10));
  }

  lemma SecondSteps()
    ensures Request(100, FIRST_DONE, 2) == SECOND_PENDING
    ensures Deliver(SECOND_FETCHING, 1, PAIRS.idOf, Ok([(1, 99)])) == REWRITTEN
  {
    assert StartBatch(FIRST_DONE) == Loader(FIRST_DONE.cache, [Batch([1], Finished), Batch([], Pending)], Some(1));
    assert [] + [2] == [2];
    assert [Batch([1], Finished), Batch([], Pending)][1 := Batch([2], Pending)] == [Batch([1], Finished), Batch([2], Pending)];
    var cache := SECOND_FETCHING.cache;
    assert StoreValues(cache, PAIRS.idOf, [(1, 99)]) == StoreOne(cache, PAIRS.idOf, (1, 99));
  }

  lemma FetchFirst()
    ensures Run(PAIRS, FETCH_FIRST) == System(FIRST_DONE, map[0 := Returned(1, Some((1, 10)), None)])
  {
    var calls := map[0 := Waiting(1)];
    FirstSteps();
    Follow(PAIRS, Init(), FETCH_FIRST,
           [Init(), System(FIRST_PENDING, calls), System(FIRST_FETCHING, calls), System(FIRST_DONE, calls),
            System(FIRST_DONE, map[0 := Returned(1, Some((1, 10)), None)])]);
  }

  lemma FetchSecond()
    ensures RunFrom(PAIRS, System(FIRST_DONE, map[0 := Returned(1, Some((1, 10)), None)]), FETCH_SECOND)
         == System(REWRITTEN, map[0 := Returned(1, Some((1, 10)), None), 1 := Waiting(2), 2 := Returned(1, Some((1, 99)), None)])
  {
    var calls: map<CallID, Call<int, (int, int)>> := map[0 := Returned(1, Some((1, 10)), None)];
    SecondSteps();
    Follow(PAIRS, System(FIRST_DONE, calls), FETCH_SECOND,
           [System(FIRST_DONE, calls), System(SECOND_PENDING, calls[1 := Waiting(2)]),
            System(SECOND_FETCHING, calls[1 := Waiting(2)]), System(REWRITTEN, calls[1 := Waiting(2)]),
            System(REWRITTEN, calls[1 := Waiting(2)][2 := Waiting(1)]),
            System(REWRITTEN, calls[1 := Waiting(2)][2 := Returned(1, Some((1, 99)), None)])]);
  }

  lemma {:induction false} RunOn<K(!new), V>(cfg: Config<K, V>, s: System<K, V>, before: seq<Action<K, V>>, after: seq<Action<K, V>>)
    requires WellFormed(s.loader)
    ensures RunFrom(cfg, s, before + after) == RunFrom(cfg, RunFrom(cfg, s, before), after)
    decreases |before|
  {
    if before == [] {
      assert before + after == after;
    } else {
      RunOn(cfg, Step(cfg, s, before[0]), before[1..], after);
      assert (before + after)[1..] == before[1..] + after;
    }
  }

  /**
   A run in which it does change: the fetch for ID 2 returns another value of ID 1, which was not asked for in that
   batch, and two callers of ID 1 get different answers.
   */
  lemma ExtraValuesRewriteResults()
    ensures Run(PAIRS, FETCH_FIRST + FETCH_SECOND)
         == System(REWRITTEN, map[0 := Returned(1, Some((1, 10)), None), 1 := Waiting(2), 2 := Returned(1, Some((1, 99)), None)])
  {
    FetchFirst();
    FetchSecond();
    RunOn(PAIRS, Init(), FETCH_FIRST, FETCH_SECOND);
  }
}
