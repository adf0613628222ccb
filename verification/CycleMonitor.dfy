/**
 The engine's cycle monitor: it names the next engine cycle, remembers the last ten names, and lets callers wait for
 a named cycle to finish. A caller asks for the next ID and waits for it, to be sure that a whole cycle has run
 since it asked.
 */
module CycleMonitor {
  import opened Common

  /** A UUID; NIL is the zero value that fills the history at first. */
  type ID = nat

  const NIL: ID := 0

  const CYCLE_HIST := 10

  /** history holds the newest ID first; cycles maps each known ID to the channel closed when its cycle finishes. */
  datatype Monitor<C> = Monitor(history: seq<ID>, cycles: map<ID, C>)

  /** _newID: forget the oldest ID, shift the others and put the new one in front. */
  function Shifted<C>(m: Monitor<C>, id: ID, ch: C): Monitor<C>
    requires |m.history| == CYCLE_HIST
  {
    Monitor([id] + m.history[..CYCLE_HIST - 1], (m.cycles - {m.history[CYCLE_HIST - 1]})[id := ch])
  }

  class Channel {
    var closed: bool

    constructor ()
      ensures !closed
    {
      closed := false;
    }

    method Close()
      requires !closed
      modifies this
      ensures closed
    {
      closed := true;
    }
  }

  class Cycles {
    const history: array<ID>
    var cycles: map<ID, Channel>

    ghost predicate Valid()
      reads this, history
    {
      history.Length == CYCLE_HIST && history[0] in cycles
    }

    ghost function Snapshot(): Monitor<Channel>
      reads this, history
    {
      Monitor(history[..], cycles)
    }

    constructor (id: ID)
      ensures Valid() && fresh(history)
      ensures id in cycles && fresh(cycles[id]) && !cycles[id].closed
      ensures Snapshot() == Shifted(Monitor(seq(CYCLE_HIST, _ => NIL), map[]), id, cycles[id])
    {
      history := new ID[CYCLE_HIST](_ => NIL);
      cycles := map[];
      new;
      assert history[..] == seq(CYCLE_HIST, _ => NIL);
      var ch := NewID(id);
    }

    /** Returns the channel made for the new ID. */
    method NewID(id: ID) returns (ch: Channel)
      requires history.Length == CYCLE_HIST
      modifies this, history
      ensures fresh(ch) && !ch.closed
      ensures Valid() && Snapshot() == Shifted(old(Snapshot()), id, ch)
    {
      cycles := cycles - {history[CYCLE_HIST - 1]};
      ghost var was := history[..];
      var i := CYCLE_HIST - 1;
      while i > 0
        invariant 0 <= i < CYCLE_HIST
        invariant cycles == old(cycles) - {was[CYCLE_HIST - 1]}
        invariant forall k :: 0 <= k <= i ==> history[k] == was[k]
        invariant forall k :: i < k < CYCLE_HIST ==> history[k] == was[k - 1]
      {
        history[i] := history[i - 1];
        i := i - 1;
      }
      history[0] := id;
      ch := new Channel();
      cycles := cycles[id := ch];
      assert history[..] == [id] + was[..CYCLE_HIST - 1];
    }

    /** Returns the channel that the caller closes when the cycle it just started is finished. */
    method StartNextCycle(id: ID) returns (ch: Channel)
      requires Valid()
      modifies this, history
      ensures Valid() && ch == old(cycles[history[0]])
      ensures id in cycles && fresh(cycles[id]) && !cycles[id].closed
      ensures Snapshot() == Shifted(old(Snapshot()), id, cycles[id])
    {
      ch := cycles[history[0]];
      var next := NewID(id);
    }

    /** The locked half of WaitCycleID: None is the "unknown cycle ID" error; a channel stays good once it is found. */
    method FindCycle(id: ID) returns (ch: Option<Channel>)
      requires Valid()
      ensures ch == if id in cycles then Some(cycles[id]) else None
    {
      if id !in cycles {
        return None;
      }
      ch := Some(cycles[id]);
    }

    method NextCycleID() returns (id: ID)
      requires Valid()
      ensures id == Snapshot().history[0] && id in cycles
    {
      id := history[0];
    }
  }

  // ---- Runs ----

  /** generated lists every ID in order; the channel of generated[i] is named i. waits holds each waiter's ID and channel. */
  datatype System = System(monitor: Monitor<nat>, generated: seq<ID>, closed: set<nat>, waits: map<nat, (ID, nat)>)

  datatype Action =
    | Start(next: ID)              // startNextCycle, which makes the ID of the cycle after
    | Finish(cycle: nat)           // the func returned by startNextCycle
    | Wait(waiter: nat, id: ID)    // WaitCycleID takes the channel, or fails

  /** uuid.New never repeats an ID; a cycle finishes once, after it started. */
  predicate Enabled(s: System, a: Action) {
    match a
    case Start(id) => id != NIL && id !in s.generated && |s.monitor.history| == CYCLE_HIST
    case Finish(i) => i + 1 < |s.generated| && i !in s.closed
    case Wait(w, _) => w !in s.waits
  }

  function Step(s: System, a: Action): System
    requires Enabled(s, a)
  {
    match a
    case Start(id) => s.(monitor := Shifted(s.monitor, id, |s.generated|), generated := s.generated + [id])
    case Finish(i) => s.(closed := s.closed + {i})
    case Wait(w, id) =>
      if id in s.monitor.cycles then s.(waits := s.waits[w := (id, s.monitor.cycles[id])]) else s
  }

  ghost predicate Run(s: System, actions: seq<Action>, t: System)
    decreases |actions|
  {
    if actions == [] then s == t
    else Enabled(s, actions[0]) && Run(Step(s, actions[0]), actions[1..], t)
  }

  function Initial(id: ID): System {
    System(Shifted(Monitor(seq(CYCLE_HIST, _ => NIL), map[]), id, 0), [id], {}, map[])
  }

  /** The history is the generated IDs backwards, and NIL where there are too few. */
  predicate HistoryInv(s: System) {
    && s.generated != [] && Distinct(s.generated) && NIL !in s.generated
    && |s.monitor.history| == CYCLE_HIST
    && forall i :: 0 <= i < CYCLE_HIST ==>
         s.monitor.history[i] == if i < |s.generated| then s.generated[|s.generated| - 1 - i] else NIL
  }

  predicate Recent(s: System, i: int) {
    0 <= i < |s.generated| && |s.generated| - CYCLE_HIST <= i
  }

  ghost predicate CyclesInv(s: System) {
    && (forall i :: Recent(s, i) ==> s.generated[i] in s.monitor.cycles)
    && (forall id :: id in s.monitor.cycles ==> Recent(s, s.monitor.cycles[id]) && s.generated[s.monitor.cycles[id]] == id)
  }

  predicate WaitsInv(s: System) {
    && (forall i :: i in s.closed ==> i + 1 < |s.generated|)
    && (forall w :: w in s.waits ==> s.waits[w].1 < |s.generated| && s.generated[s.waits[w].1] == s.waits[w].0)
  }

  ghost predicate Inv(s: System) {
    HistoryInv(s) && CyclesInv(s) && WaitsInv(s)
  }

  lemma StartKeepsHistory(s: System, id: ID)
    requires HistoryInv(s) && Enabled(s, Start(id))
    ensures HistoryInv(Step(s, Start(id)))
  {
    var t := Step(s, Start(id));
    forall i | 0 <= i < CYCLE_HIST
      ensures t.monitor.history[i] == if i < |t.generated| then t.generated[|t.generated| - 1 - i] else NIL
    {
      if i > 0 {
        assert t.monitor.history[i] == s.monitor.history[i - 1];
      }
    }
  }

  lemma StartKeepsCycles(s: System, id: ID)
    requires HistoryInv(s) && CyclesInv(s) && Enabled(s, Start(id))
    ensures CyclesInv(Step(s, Start(id)))
  {
    var t := Step(s, Start(id));
    var n := |s.generated|;
    var oldest := s.monitor.history[CYCLE_HIST - 1];
    forall i | Recent(t, i)
      ensures t.generated[i] in t.monitor.cycles
    {
      if i < n {
        assert Recent(s, i) && s.generated[i] != oldest;
      }
    }
    forall x | x in t.monitor.cycles
      ensures Recent(t, t.monitor.cycles[x]) && t.generated[t.monitor.cycles[x]] == x
    {
      if x != id {
        assert Recent(s, s.monitor.cycles[x]) && x != oldest;
      }
    }
  }

  lemma StepKeepsInv(s: System, a: Action)
    requires Inv(s) && Enabled(s, a)
    ensures Inv(Step(s, a))
  {
    match a {
      case Start(id) =>
        StartKeepsHistory(s, id);
        StartKeepsCycles(s, id);
      case Finish(i) =>
        assert CyclesInv(s) && (forall j :: Recent(Step(s, a), j) <==> Recent(s, j));
      case Wait(w, id) =>
        assert CyclesInv(s) && (forall j :: Recent(Step(s, a), j) <==> Recent(s, j));
    }
  }

  lemma {:induction false} RunKeepsInv(s: System, actions: seq<Action>, t: System)
    requires Run(s, actions, t) && Inv(s)
    ensures Inv(t)
    decreases |actions|
  {
    if actions != [] {
      StepKeepsInv(s, actions[0]);
      RunKeepsInv(Step(s, actions[0]), actions[1..], t);
    }
  }

  lemma InitialInv(id: ID)
    requires id != NIL
    ensures Inv(Initial(id))
  {
    var s := Initial(id);
    assert Recent(s, s.monitor.cycles[id]);
  }

  // ---- What the monitor promises ----

  function Min(a: nat, b: nat): nat {
    if a < b then a else b
  }

  /** The known IDs are the last ten generated, or all of them while there are fewer; each knows its own channel. */
  lemma KnownIDsAreTheLastTen(first: ID, actions: seq<Action>, s: System, id: ID)
    requires first != NIL && Run(Initial(first), actions, s)
    ensures id in s.monitor.cycles <==> id in s.generated[|s.generated| - Min(10, |s.generated|)..]
    ensures id in s.monitor.cycles ==> s.monitor.cycles[id] < |s.generated| && s.generated[s.monitor.cycles[id]] == id
  {
    InitialInv(first);
    RunKeepsInv(Initial(first), actions, s);
    var from := |s.generated| - Min(CYCLE_HIST, |s.generated|);
    if id in s.generated[from..] {
      var i :| 0 <= i < |s.generated[from..]| && s.generated[from..][i] == id;
      assert Recent(s, from + i);
    }
    if id in s.monitor.cycles {
      var i := s.monitor.cycles[id];
      assert Recent(s, i) && s.generated[from..][i - from] == id;
    }
  }

  /** What NextCycleID returns. */
  function NextID(s: System): ID {
    if s.monitor.history == [] then NIL else s.monitor.history[0]
  }

  function Starts(actions: seq<Action>): nat {
    if actions == [] then 0 else (if actions[0].Start? then 1 else 0) + Starts(actions[1..])
  }

  lemma {:induction false} StartsGenerate(s: System, actions: seq<Action>, t: System)
    requires Run(s, actions, t)
    ensures |t.generated| == |s.generated| + Starts(actions) && s.generated <= t.generated
    decreases |actions|
  {
    if actions != [] {
      StartsGenerate(Step(s, actions[0]), actions[1..], t);
    }
  }

  /** An ID handed out stays known through the next nine starts, whatever else happens, and not through the tenth. */
  lemma KnownForNineStarts(first: ID, actions: seq<Action>, s: System, later: seq<Action>, t: System)
    requires first != NIL && Run(Initial(first), actions, s) && Run(s, later, t)
    ensures NextID(s) in t.monitor.cycles <==> Starts(later) <= 9
  {
    InitialInv(first);
    RunKeepsInv(Initial(first), actions, s);
    RunKeepsInv(s, later, t);
    StartsGenerate(s, later, t);
    var i := |s.generated| - 1;
    assert NextID(s) == s.generated[i] == t.generated[i];
    if t.generated[i] in t.monitor.cycles {
      var j := t.monitor.cycles[t.generated[i]];
      assert Recent(t, j) && t.generated[j] == t.generated[i];
      assert i == j;
    }
    if Starts(later) <= CYCLE_HIST - 1 {
      assert Recent(t, i);
    }
  }

  /** The select in WaitCycleID takes the channel. */
  predicate WaitSucceeds(s: System, w: nat, id: ID) {
    w in s.waits && s.waits[w].0 == id && s.waits[w].1 in s.closed
  }

  lemma {:induction false} FinishHappened(s: System, actions: seq<Action>, t: System, i: nat) returns (k: nat)
    requires Run(s, actions, t) && i !in s.closed && i in t.closed
    ensures k < |actions| && actions[k] == Finish(i)
    decreases |actions|
  {
    if actions[0] == Finish(i) {
      k := 0;
    } else {
      k := FinishHappened(Step(s, actions[0]), actions[1..], t, i);
      k := k + 1;
    }
  }

  lemma {:induction false} StartThenFinish(s: System, actions: seq<Action>, t: System) returns (j: nat, k: nat)
    requires Inv(s) && Run(s, actions, t) && |s.generated| - 1 in t.closed
    ensures j < k < |actions| && actions[j].Start? && Starts(actions[..j]) == 0 && actions[k] == Finish(|s.generated| - 1)
    decreases |actions|
  {
    var next := Step(s, actions[0]);
    StepKeepsInv(s, actions[0]);
    if actions[0].Start? {
      j := 0;
      k := FinishHappened(next, actions[1..], t, |s.generated| - 1);
      k := k + 1;
    } else {
      j, k := StartThenFinish(next, actions[1..], t);
      j, k := j + 1, k + 1;
      assert actions[..j] == [actions[0]] + actions[1..][..j - 1];
    }
  }

  /**
   NextCycleID returned id in state s. When a wait for that ID has succeeded in t, then since s the next cycle was
   started, it is the cycle of that ID, and it was finished: a whole cycle ran after the ID was handed out.
   */
  lemma WaitMeansWholeCycle(first: ID, actions: seq<Action>, s: System, later: seq<Action>, t: System, w: nat)
    requires first != NIL && Run(Initial(first), actions, s) && Run(s, later, t)
    requires WaitSucceeds(t, w, NextID(s))
    ensures s.generated != [] && s.generated[|s.generated| - 1] == NextID(s)
    ensures exists j, k :: 0 <= j < k < |later| && later[j].Start? && Starts(later[..j]) == 0
                           && later[k] == Finish(|s.generated| - 1)
  {
    InitialInv(first);
    RunKeepsInv(Initial(first), actions, s);
    RunKeepsInv(s, later, t);
    StartsGenerate(s, later, t);
    var i := |s.generated| - 1;
    assert t.generated[i] == NextID(s) == t.generated[t.waits[w].1];
    assert t.waits[w].1 == i;
    var j, k := StartThenFinish(s, later, t);
  }

  /** A caller waits exactly for a known ID; for any other it is told that the ID is unknown. */
  lemma WaitTakesKnownIDs(s: System, w: nat, id: ID)
    requires w !in s.waits
    ensures w in Step(s, Wait(w, id)).waits <==> id in s.monitor.cycles
    ensures w in Step(s, Wait(w, id)).waits ==> Step(s, Wait(w, id)).waits[w].0 == id
  {
  }

  lemma {:induction false} ClosedByFinish(s: System, actions: seq<Action>, t: System, i: nat)
    requires Run(s, actions, t)
    ensures i in t.closed <==> i in s.closed || Finish(i) in actions
    decreases |actions|
  {
    if actions != [] {
      ClosedByFinish(Step(s, actions[0]), actions[1..], t, i);
      assert actions == [actions[0]] + actions[1..];
    }
  }

  /** In every run a wait succeeds exactly when the cycle of its ID was finished, even if the ID was forgotten since. */
  lemma WaitSucceedsExactly(first: ID, actions: seq<Action>, s: System, w: nat, id: ID)
    requires first != NIL && Run(Initial(first), actions, s) && w in s.waits && s.waits[w].0 == id
    ensures WaitSucceeds(s, w, id) <==> exists i: nat :: i < |s.generated| && s.generated[i] == id && Finish(i) in actions
  {
    InitialInv(first);
    RunKeepsInv(Initial(first), actions, s);
    ClosedByFinish(Initial(first), actions, s, s.waits[w].1);
    assert forall i: nat :: i < |s.generated| && s.generated[i] == id ==> i == s.waits[w].1;
  }
}
