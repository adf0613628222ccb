/**
 Any interleaving of Lock, cancellation and Unlock calls. A Lock call is identified with the channel it may
 queue; a call that returned nil keeps its identity while its lock is held and while it is being unlocked.
 The mutex has an explicit owner, and Unlock keeps it while it waits to receive from a popped channel.
 */
module CtxLockProtocol {
  import opened Common
  import opened CtxLocker

  datatype Phase =
    | LockWant(id: ID)                        // before l.mx.Lock()
    | LockIn(id: ID)                          // inside Lock's first critical section
    | Waiting(id: ID)                         // in the select, channel open
    | Leaving(id: ID)                         // context done: channel closed, before l.mx.Lock()
    | LeavingIn(id: ID)                       // inside the cleanup critical section
    | Failed(id: ID)                          // Lock returned an error
    | Holding(id: ID)                         // Lock returned nil
    | UnlockWant(id: ID)                      // Unlock called, before l.mx.Lock()
    | UnlockIn(id: ID)                        // at the top of Unlock's loop
    | UnlockReceive(id: ID, from: Chan)       // receiving from the channel it popped
    | Done(id: ID)                            // Unlock returned

  datatype State = State(
    locker: Locker,
    phases: map<Chan, Phase>,
    mutex: Option<Chan>,
    ticket: map<Chan, nat>,     // position in the order of queueing
    nextTicket: nat,
    granted: set<Chan>)         // Lock calls that took the fast path or received a hand-off

  datatype Action =
    | CallLock(c: Chan, id: ID)
    | TakeMutex(c: Chan)
    | LockBody(c: Chan)
    | Cancel(c: Chan)           // context cancelled or timed out
    | Cleanup(c: Chan)
    | CallUnlock(c: Chan)
    | UnlockTop(c: Chan)
    | Receive(c: Chan)

  function Init(): State {
    State(Locker(map[], map[]), map[], None, map[], 0, {})
  }

  predicate WantsMutex(p: Phase) {
    p.LockWant? || p.Leaving? || p.UnlockWant?
  }

  predicate InMutex(p: Phase) {
    p.LockIn? || p.LeavingIn? || p.UnlockIn? || p.UnlockReceive?
  }

  /** The call owns one unit of the ID's count. */
  predicate Holds(p: Phase, id: ID) {
    (p.Holding? || p.UnlockWant? || p.UnlockIn? || p.UnlockReceive?) && p.id == id
  }

  /** The call's channel has been closed. */
  predicate Closed(p: Phase) {
    p.Leaving? || p.LeavingIn? || p.Failed?
  }

  predicate Enabled(s: State, a: Action) {
    match a
    case CallLock(c, _) => c !in s.phases
    case TakeMutex(c) => c in s.phases && WantsMutex(s.phases[c]) && s.mutex.None?
    case LockBody(c) => c in s.phases && s.phases[c].LockIn?
    case Cancel(c) => c in s.phases && s.phases[c].Waiting?
    case Cleanup(c) => c in s.phases && s.phases[c].LeavingIn?
    case CallUnlock(c) => c in s.phases && s.phases[c].Holding?
    case UnlockTop(c) => c in s.phases && s.phases[c].UnlockIn?
    case Receive(c) =>
      c in s.phases && s.phases[c].UnlockReceive? && s.phases[c].from in s.phases
      && (s.phases[s.phases[c].from].Waiting? || Closed(s.phases[s.phases[c].from]))
  }

  function To(s: State, c: Chan, p: Phase): State {
    s.(phases := s.phases[c := p])
  }

  function EnterMutex(p: Phase): Phase
    requires WantsMutex(p)
  {
    match p
    case LockWant(id) => LockIn(id)
    case Leaving(id) => LeavingIn(id)
    case UnlockWant(id) => UnlockIn(id)
  }

  function ApplyLock(cfg: ValidConfig, s: State, c: Chan): State
    requires c in s.phases && s.phases[c].LockIn?
  {
    var id := s.phases[c].id;
    var s1 := s.(locker := EnterLock(cfg, s.locker, id, c), mutex := None);
    match EntryFor(cfg, s.locker, id)
    case Acquired => To(s1, c, Holding(id)).(granted := s.granted + {c})
    case QueueFull => To(s1, c, Failed(id))
    case Queued => To(s1, c, Waiting(id)).(ticket := s.ticket[c := s.nextTicket], nextTicket := s.nextTicket + 1)
  }

  function ApplyUnlockTop(s: State, c: Chan): State
    requires c in s.phases && s.phases[c].UnlockIn?
  {
    var id := s.phases[c].id;
    if QueueOf(s.locker, id) == []
    then To(s, c, Done(id)).(locker := Release(s.locker, id), mutex := None)
    else To(s, c, UnlockReceive(id, QueueOf(s.locker, id)[0])).(locker := PopQueue(s.locker, id))
  }

  /** A receive completes with a waiting sender, or at once on a closed channel; then Unlock retries. */
  function ApplyReceive(s: State, c: Chan): State
    requires Enabled(s, Receive(c))
  {
    var id, from := s.phases[c].id, s.phases[c].from;
    if s.phases[from].Waiting?
    then To(To(s, from, Holding(s.phases[from].id)), c, Done(id)).(mutex := None, granted := s.granted + {from})
    else To(s, c, UnlockIn(id))
  }

  function Apply(cfg: ValidConfig, s: State, a: Action): State
    requires Enabled(s, a)
  {
    match a
    case CallLock(c, id) => To(s, c, LockWant(id))
    case TakeMutex(c) => To(s, c, EnterMutex(s.phases[c])).(mutex := Some(c))
    case LockBody(c) => ApplyLock(cfg, s, c)
    case Cancel(c) => To(s, c, Leaving(s.phases[c].id))
    case Cleanup(c) =>
      To(s, c, Failed(s.phases[c].id)).(locker := LeaveQueue(s.locker, s.phases[c].id, c), mutex := None)
    case CallUnlock(c) => To(s, c, UnlockWant(s.phases[c].id))
    case UnlockTop(c) => ApplyUnlockTop(s, c)
    case Receive(c) => ApplyReceive(s, c)
  }

  function Step(cfg: ValidConfig, s: State, a: Action): State {
    if Enabled(s, a) then Apply(cfg, s, a) else s
  }

  /** The state after performing actions, in order, from s. */
  function RunFrom(cfg: ValidConfig, s: State, actions: seq<Action>): State
    decreases |actions|
  {
    if actions == [] then s else RunFrom(cfg, Step(cfg, s, actions[0]), actions[1..])
  }

  function Run(cfg: ValidConfig, actions: seq<Action>): State {
    RunFrom(cfg, Init(), actions)
  }

  function Holders(s: State, id: ID): set<Chan> {
    set c | c in s.phases && Holds(s.phases[c], id)
  }

  // ---- Invariant ----

  /** A queued channel belongs to a call that waits, or that abandoned and has not cleaned up yet. */
  predicate Queueable(p: Phase, id: ID) {
    (p.Waiting? || p.Leaving? || p.LeavingIn?) && p.id == id
  }

  /** Queue positions follow the order of queueing. */
  ghost predicate InOrder(q: seq<Chan>, ticket: map<Chan, nat>) {
    && (forall i :: 0 <= i < |q| ==> q[i] in ticket)
    && (forall i, j :: 0 <= i < j < |q| ==> ticket[q[i]] < ticket[q[j]])
  }

  /** c queued before everyone in q. */
  ghost predicate Earlier(c: Chan, q: seq<Chan>, ticket: map<Chan, nat>) {
    c in ticket && forall i :: 0 <= i < |q| ==> q[i] in ticket && ticket[c] < ticket[q[i]]
  }

  predicate WithinMaxWait(cfg: ValidConfig, q: seq<Chan>) {
    cfg.maxWait == -1 || |q| <= (if cfg.maxWait < 0 then 0 else cfg.maxWait)
  }

  ghost predicate QueueInv(cfg: ValidConfig, s: State, id: ID) {
    var q := QueueOf(s.locker, id);
    && InOrder(q, s.ticket)
    && (forall c :: c in q ==> c in s.phases && Queueable(s.phases[c], id))
    && WithinMaxWait(cfg, q)
  }

  ghost predicate CountInv(cfg: ValidConfig, s: State, id: ID) {
    && CountOf(s.locker, id) == |Holders(s, id)| <= cfg.maxHeld
    && (QueueOf(s.locker, id) != [] ==> CountOf(s.locker, id) == cfg.maxHeld)
  }

  /** The unlocker that owns the mutex has popped c and will receive from it. */
  predicate Popped(s: State, c: Chan, id: ID) {
    s.mutex.Some? && s.mutex.value in s.phases && s.phases[s.mutex.value] == UnlockReceive(id, c)
  }

  ghost predicate WaiterInv(s: State, c: Chan)
    requires c in s.phases
  {
    s.phases[c].Waiting? ==> c in QueueOf(s.locker, s.phases[c].id) || Popped(s, c, s.phases[c].id)
  }

  ghost predicate ReceiverInv(cfg: ValidConfig, s: State, u: Chan)
    requires u in s.phases
  {
    s.phases[u].UnlockReceive? ==>
      var id, c := s.phases[u].id, s.phases[u].from;
      && c in s.phases && (s.phases[c].Waiting? || s.phases[c].Leaving?) && s.phases[c].id == id
      && Earlier(c, QueueOf(s.locker, id), s.ticket)
      && CountOf(s.locker, id) == cfg.maxHeld
  }

  ghost predicate CallInv(s: State, c: Chan)
    requires c in s.phases
  {
    && (InMutex(s.phases[c]) <==> s.mutex == Some(c))
    && (c in s.granted <==> Holds(s.phases[c], s.phases[c].id) || s.phases[c].Done?)
  }

  ghost predicate GlobalInv(s: State) {
    && (s.mutex.Some? ==> s.mutex.value in s.phases)
    && s.granted <= s.phases.Keys && s.ticket.Keys <= s.phases.Keys
    && (forall c :: c in s.ticket ==> s.ticket[c] < s.nextTicket)
    && (forall id :: id in s.locker.count ==> s.locker.count[id] != 0)
    && (forall id :: id in s.locker.queue ==> s.locker.queue[id] != [])
  }

  ghost predicate Inv(cfg: ValidConfig, s: State) {
    && GlobalInv(s)
    && (forall id :: QueueInv(cfg, s, id))
    && (forall id :: CountInv(cfg, s, id))
    && (forall c :: c in s.phases ==> CallInv(s, c))
    && (forall c :: c in s.phases ==> WaiterInv(s, c))
    && (forall c :: c in s.phases ==> ReceiverInv(cfg, s, c))
  }
}
