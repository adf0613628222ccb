/**
 The per-ID lock: how many holders an ID has, and the channels of those queued for it. The parts of
 Lock and Unlock that run under the mutex are methods here, each tied to a function on values; the
 interleavings of whole calls are in CtxLockProtocol.
 */
module CtxLocker {
  import opened Common

  type ID = string

  /** Identity of the channel a queued Lock call waits on. */
  type Chan = nat

  datatype Config = Config(maxHeld: int, maxWait: int)

  type ValidConfig = c: Config | c.maxHeld >= 1 witness Config(1, 0)

  /** NewIDLocker's defaulting; None is its panic. */
  function NormalizeConfig(cfg: Config): (c: Option<ValidConfig>)
    ensures c.None? <==> cfg.maxHeld < 0
    ensures c.Some? ==> c.value.maxWait == cfg.maxWait
    ensures c.Some? ==> if cfg.maxHeld == 0 then c.value.maxHeld == 1 else c.value.maxHeld == cfg.maxHeld
  {
    if cfg.maxHeld < 0 then None
    else Some(if cfg.maxHeld == 0 then cfg.(maxHeld := 1) else cfg)
  }

  datatype Locker = Locker(count: map<ID, int>, queue: map<ID, seq<Chan>>)

  function CountOf(l: Locker, id: ID): int {
    if id in l.count then l.count[id] else 0
  }

  function QueueOf(l: Locker, id: ID): seq<Chan> {
    if id in l.queue then l.queue[id] else []
  }

  /** Store a queue; an empty one is deleted from the map. */
  function WithQueue(l: Locker, id: ID, q: seq<Chan>): (r: Locker)
    ensures QueueOf(r, id) == q && r.count == l.count
    ensures forall other :: other != id ==> QueueOf(r, other) == QueueOf(l, other)
  {
    l.(queue := if q == [] then l.queue - {id} else l.queue[id := q])
  }

  /** Store a count; a zero one is deleted from the map. */
  function WithCount(l: Locker, id: ID, n: int): (r: Locker)
    ensures CountOf(r, id) == n && r.queue == l.queue
    ensures forall other :: other != id ==> CountOf(r, other) == CountOf(l, other)
  {
    l.(count := if n == 0 then l.count - {id} else l.count[id := n])
  }

  datatype Entry = Acquired | QueueFull | Queued

  /** What Lock decides in its critical section. */
  function EntryFor(cfg: ValidConfig, l: Locker, id: ID): Entry {
    if CountOf(l, id) < cfg.maxHeld then Acquired
    else if cfg.maxWait != -1 && |QueueOf(l, id)| >= cfg.maxWait then QueueFull
    else Queued
  }

  function EnterLock(cfg: ValidConfig, l: Locker, id: ID, ch: Chan): Locker {
    match EntryFor(cfg, l, id)
    case Acquired => l.(count := l.count[id := CountOf(l, id) + 1])
    case QueueFull => l
    case Queued => l.(queue := l.queue[id := QueueOf(l, id) + [ch]])
  }

  /** The cleanup of a cancelled Lock. */
  function LeaveQueue(l: Locker, id: ID, ch: Chan): Locker {
    WithQueue(l, id, Without(QueueOf(l, id), ch))
  }

  function Release(l: Locker, id: ID): Locker {
    WithCount(l, id, CountOf(l, id) - 1)
  }

  function PopQueue(l: Locker, id: ID): Locker
    requires QueueOf(l, id) != []
  {
    WithQueue(l, id, QueueOf(l, id)[1..])
  }

  datatype Outcome = HandedTo(ch: Chan) | Decremented

  /** Unlock's loop, given which channels turn out closed (abandoned) when it receives from them. */
  function UnlockLoop(l: Locker, id: ID, closed: set<Chan>): (Locker, Outcome)
    decreases |QueueOf(l, id)|
  {
    if QueueOf(l, id) == [] then (Release(l, id), Decremented)
    else
      var ch := QueueOf(l, id)[0];
      if ch in closed then UnlockLoop(PopQueue(l, id), id, closed) else (PopQueue(l, id), HandedTo(ch))
  }

  /** The first channel of q that is not closed is at k. */
  ghost predicate FirstOpen(q: seq<Chan>, k: int, closed: set<Chan>) {
    0 <= k < |q| && q[k] !in closed && forall j :: 0 <= j < k ==> q[j] in closed
  }

  lemma FirstOpenInTail(q: seq<Chan>, k: int, closed: set<Chan>)
    requires q != [] && q[0] in closed && FirstOpen(q[1..], k, closed)
    ensures FirstOpen(q, k + 1, closed) && q[1..][k + 1..] == q[k + 2..]
  {
    assert forall j :: 0 < j < k + 1 ==> q[j] == q[1..][j - 1];
  }

  /**
   Unlock hands the lock to the first waiter that has not abandoned, dropping exactly the abandoned
   channels before it; only if everyone has abandoned is the count decremented.
   */
  lemma {:induction false} UnlockGrantsFirstOpen(l: Locker, id: ID, closed: set<Chan>)
    ensures var q := QueueOf(l, id);
            var (l', outcome) := UnlockLoop(l, id, closed);
            match outcome
            case HandedTo(ch) =>
              l'.count == l.count
              && exists k :: FirstOpen(q, k, closed) && q[k] == ch && QueueOf(l', id) == q[k + 1..]
            case Decremented =>
              (forall c :: c in q ==> c in closed)
              && QueueOf(l', id) == [] && CountOf(l', id) == CountOf(l, id) - 1
    decreases |QueueOf(l, id)|
  {
    var q := QueueOf(l, id);
    if q != [] {
      assert forall c :: c in q <==> c == q[0] || c in q[1..];
      if q[0] in closed {
        UnlockGrantsFirstOpen(PopQueue(l, id), id, closed);
        var (l', outcome) := UnlockLoop(l, id, closed);
        if outcome.HandedTo? {
          var k :| FirstOpen(q[1..], k, closed) && q[1..][k] == outcome.ch && QueueOf(l', id) == q[1..][k + 1..];
          FirstOpenInTail(q, k, closed);
        }
      } else {
        assert FirstOpen(q, 0, closed);
      }
    }
  }

  /** Unlock panics exactly when nobody still waits and no lock is held. */
  lemma {:induction false} UnlockPanicsExactly(l: Locker, id: ID, closed: set<Chan>)
    ensures var (l', outcome) := UnlockLoop(l, id, closed);
            outcome == Decremented && CountOf(l', id) < 0
            <==> (forall c :: c in QueueOf(l, id) ==> c in closed) && CountOf(l, id) <= 0
  {
    UnlockGrantsFirstOpen(l, id, closed);
    var (l', outcome) := UnlockLoop(l, id, closed);
    if outcome.HandedTo? {
      assert outcome.ch in QueueOf(l, id) && outcome.ch !in closed;
    }
  }

  lemma {:induction false} WithoutAt(q: seq<Chan>, i: nat, ch: Chan)
    requires i <= |q| && (forall j :: 0 <= j < i ==> q[j] != ch) && (i < |q| ==> q[i] == ch)
    ensures Without(q, ch) == if i < |q| then q[..i] + q[i + 1..] else q
  {
    if i > 0 {
      WithoutAt(q[1..], i - 1, ch);
      assert q[..i] == [q[0]] + q[1..][..i - 1];
      assert i < |q| ==> q[1..][i..] == q[i + 1..];
    }
  }

  class IDLocker {
    const cfg: ValidConfig
    var count: map<ID, int>
    var queue: map<ID, seq<Chan>>

    ghost function View(): Locker
      reads this
    {
      Locker(count, queue)
    }

    constructor (cfg: ValidConfig)
      ensures this.cfg == cfg && View() == Locker(map[], map[])
    {
      this.cfg := cfg;
      count, queue := map[], map[];
    }

    /** The critical section at the start of Lock; ch is the channel it makes if it has to queue. */
    method BeginLock(id: ID, ch: Chan) returns (entry: Entry)
      modifies this
      ensures entry == EntryFor(cfg, old(View()), id)
      ensures View() == EnterLock(cfg, old(View()), id, ch)
    {
      var held := if id in count then count[id] else 0;
      if held < cfg.maxHeld {
        count := count[id := held + 1];
        return Acquired;
      }
      var waiting := if id in queue then queue[id] else [];
      if cfg.maxWait != -1 && |waiting| >= cfg.maxWait {
        return QueueFull;
      }
      queue := queue[id := waiting + [ch]];
      entry := Queued;
    }

    /** The critical section of a Lock whose context ended: splice its own channel out of the queue. */
    method CancelLock(id: ID, ch: Chan)
      modifies this`queue
      ensures View() == LeaveQueue(old(View()), id, ch)
    {
      var q := if id in queue then queue[id] else [];
      var i := 0;
      while i < |q| && q[i] != ch
        invariant 0 <= i <= |q|
        invariant forall j :: 0 <= j < i ==> q[j] != ch
      {
        i := i + 1;
      }
      WithoutAt(q, i, ch);
      if i < |q| {
        q := q[..i] + q[i + 1..];
        queue := queue[id := q];
      }
      if q == [] {
        queue := queue - {id};
      }
    }

    /** Unlock. A panic ("count < 0") leaves the negative count behind. */
    method Unlock(id: ID, closed: set<Chan>) returns (outcome: Outcome, panicked: bool)
      modifies this
      ensures (View(), outcome) == UnlockLoop(old(View()), id, closed)
      ensures panicked <==> outcome == Decremented && CountOf(View(), id) < 0
    {
      while true
        invariant UnlockLoop(View(), id, closed) == UnlockLoop(old(View()), id, closed)
        decreases |QueueOf(View(), id)|
      {
        if id !in queue || queue[id] == [] {
          var held := (if id in count then count[id] else 0) - 1;
          count := if held == 0 then count - {id} else count[id := held];
          return Decremented, held < 0;
        }
        var ch := queue[id][0];
        var rest := queue[id][1..];
        queue := if rest == [] then queue - {id} else queue[id := rest];
        if ch !in closed {
          return HandedTo(ch), false;
        }
      }
    }
  }
}
