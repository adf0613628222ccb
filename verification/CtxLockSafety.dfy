/** The lock protocol's invariant holds in every run, and what follows from it. */
module CtxLockSafety {
  import opened Common
  import opened CtxLocker
  import opened CtxLockProtocol

  // ---- Every step keeps the invariant ----

  /** Changing one call's phase changes the holders of an ID by at most that call. */
  lemma HoldersAfter(s: State, s': State, c: Chan, p: Phase, id: ID)
    requires s'.phases == s.phases[c := p]
    ensures Holders(s', id) == if Holds(p, id) then Holders(s, id) + {c} else Holders(s, id) - {c}
  {
  }

  lemma HoldersSame(s: State, s': State, c: Chan, p: Phase)
    requires s'.phases == s.phases[c := p]
    requires forall id :: Holds(p, id) <==> c in s.phases && Holds(s.phases[c], id)
    ensures forall id :: Holders(s', id) == Holders(s, id)
  {
    forall id ensures Holders(s', id) == Holders(s, id) {
      HoldersAfter(s, s', c, p, id);
    }
  }

  /** An ID that a step leaves alone. */
  lemma IDFrame(cfg: ValidConfig, s: State, s': State, id: ID)
    requires QueueInv(cfg, s, id) && CountInv(cfg, s, id)
    requires QueueOf(s'.locker, id) == QueueOf(s.locker, id) && CountOf(s'.locker, id) == CountOf(s.locker, id)
    requires Holders(s', id) == Holders(s, id)
    requires forall c :: c in QueueOf(s.locker, id) ==> c in s'.phases && Queueable(s'.phases[c], id)
    requires forall c :: c in s.ticket ==> c in s'.ticket && s'.ticket[c] == s.ticket[c]
    ensures QueueInv(cfg, s', id) && CountInv(cfg, s', id)
  {
  }

  /** Steps that only change the phase of c, without making it or unmaking it a holder. */
  lemma PhaseStep(cfg: ValidConfig, s: State, s': State, c: Chan, p: Phase)
    requires Inv(cfg, s)
    requires s'.phases == s.phases[c := p] && s'.locker == s.locker && s'.ticket == s.ticket
    requires forall id :: Holds(p, id) <==> c in s.phases && Holds(s.phases[c], id)
    requires c in s.phases ==> forall id :: Queueable(s.phases[c], id) ==> Queueable(p, id)
    ensures forall id :: QueueInv(cfg, s', id)
    ensures forall id :: CountInv(cfg, s', id)
  {
    HoldersSame(s, s', c, p);
    forall id
      ensures QueueInv(cfg, s', id) && CountInv(cfg, s', id)
    {
      assert QueueInv(cfg, s, id) && CountInv(cfg, s, id);
      IDFrame(cfg, s, s', id);
    }
  }

  lemma CallLockKeepsInv(cfg: ValidConfig, s: State, a: Action)
    requires Inv(cfg, s) && a.CallLock? && Enabled(s, a)
    ensures Inv(cfg, Apply(cfg, s, a))
  {
    var s' := Apply(cfg, s, a);
    PhaseStep(cfg, s, s', a.c, LockWant(a.id));
    forall x | x in s'.phases
      ensures CallInv(s', x) && WaiterInv(s', x) && ReceiverInv(cfg, s', x)
    {
      assert x in s.phases ==> CallInv(s, x) && WaiterInv(s, x) && ReceiverInv(cfg, s, x);
    }
  }

  lemma TakeMutexKeepsInv(cfg: ValidConfig, s: State, a: Action)
    requires Inv(cfg, s) && a.TakeMutex? && Enabled(s, a)
    ensures Inv(cfg, Apply(cfg, s, a))
  {
    var s' := Apply(cfg, s, a);
    PhaseStep(cfg, s, s', a.c, EnterMutex(s.phases[a.c]));
    forall x | x in s'.phases
      ensures CallInv(s', x) && WaiterInv(s', x) && ReceiverInv(cfg, s', x)
    {
      assert CallInv(s, x) && WaiterInv(s, x) && ReceiverInv(cfg, s, x);
    }
  }

  lemma CancelKeepsInv(cfg: ValidConfig, s: State, a: Action)
    requires Inv(cfg, s) && a.Cancel? && Enabled(s, a)
    ensures Inv(cfg, Apply(cfg, s, a))
  {
    var s' := Apply(cfg, s, a);
    PhaseStep(cfg, s, s', a.c, Leaving(s.phases[a.c].id));
    forall x | x in s'.phases
      ensures CallInv(s', x) && WaiterInv(s', x) && ReceiverInv(cfg, s', x)
    {
      assert CallInv(s, x) && WaiterInv(s, x) && ReceiverInv(cfg, s, x);
    }
  }

  lemma CallUnlockKeepsInv(cfg: ValidConfig, s: State, a: Action)
    requires Inv(cfg, s) && a.CallUnlock? && Enabled(s, a)
    ensures Inv(cfg, Apply(cfg, s, a))
  {
    var s' := Apply(cfg, s, a);
    PhaseStep(cfg, s, s', a.c, UnlockWant(s.phases[a.c].id));
    forall x | x in s'.phases
      ensures CallInv(s', x) && WaiterInv(s', x) && ReceiverInv(cfg, s', x)
    {
      assert CallInv(s, x) && WaiterInv(s, x) && ReceiverInv(cfg, s, x);
    }
  }

  lemma QueueFullKeepsInv(cfg: ValidConfig, s: State, c: Chan)
    requires Inv(cfg, s) && c in s.phases && s.phases[c].LockIn?
    requires EntryFor(cfg, s.locker, s.phases[c].id) == QueueFull
    ensures Inv(cfg, ApplyLock(cfg, s, c))
  {
    var s' := ApplyLock(cfg, s, c);
    assert CallInv(s, c);
    PhaseStep(cfg, s, s', c, Failed(s.phases[c].id));
    forall x | x in s'.phases
      ensures CallInv(s', x) && WaiterInv(s', x) && ReceiverInv(cfg, s', x)
    {
      assert CallInv(s, x) && WaiterInv(s, x) && ReceiverInv(cfg, s, x);
    }
  }

  lemma RetryKeepsInv(cfg: ValidConfig, s: State, c: Chan)
    requires Inv(cfg, s) && Enabled(s, Receive(c)) && !s.phases[s.phases[c].from].Waiting?
    ensures Inv(cfg, ApplyReceive(s, c))
  {
    var s' := ApplyReceive(s, c);
    assert CallInv(s, c);
    PhaseStep(cfg, s, s', c, UnlockIn(s.phases[c].id));
    forall x | x in s'.phases
      ensures CallInv(s', x) && WaiterInv(s', x) && ReceiverInv(cfg, s', x)
    {
      assert CallInv(s, x) && WaiterInv(s, x) && ReceiverInv(cfg, s, x);
    }
  }

  lemma FastPathOwnID(cfg: ValidConfig, s: State, c: Chan)
    requires Inv(cfg, s) && c in s.phases && s.phases[c].LockIn?
    requires EntryFor(cfg, s.locker, s.phases[c].id) == Acquired
    ensures var s' := ApplyLock(cfg, s, c); QueueInv(cfg, s', s.phases[c].id) && CountInv(cfg, s', s.phases[c].id)
  {
    var id, s' := s.phases[c].id, ApplyLock(cfg, s, c);
    assert QueueInv(cfg, s, id) && CountInv(cfg, s, id);
    HoldersAfter(s, s', c, Holding(id), id);
    assert c !in Holders(s, id);
    assert QueueOf(s'.locker, id) == QueueOf(s.locker, id) == [];
  }

  lemma FastPathKeepsIDs(cfg: ValidConfig, s: State, c: Chan)
    requires Inv(cfg, s) && c in s.phases && s.phases[c].LockIn?
    requires EntryFor(cfg, s.locker, s.phases[c].id) == Acquired
    ensures var s' := ApplyLock(cfg, s, c); forall id :: QueueInv(cfg, s', id) && CountInv(cfg, s', id)
  {
    var id, s' := s.phases[c].id, ApplyLock(cfg, s, c);
    FastPathOwnID(cfg, s, c);
    forall other
      ensures QueueInv(cfg, s', other) && CountInv(cfg, s', other)
    {
      if other != id {
        assert QueueInv(cfg, s, other) && CountInv(cfg, s, other);
        HoldersAfter(s, s', c, Holding(id), other);
        assert Holders(s', other) == Holders(s, other);
        IDFrame(cfg, s, s', other);
      }
    }
  }

  lemma FastPathKeepsInv(cfg: ValidConfig, s: State, c: Chan)
    requires Inv(cfg, s) && c in s.phases && s.phases[c].LockIn?
    requires EntryFor(cfg, s.locker, s.phases[c].id) == Acquired
    ensures Inv(cfg, ApplyLock(cfg, s, c))
  {
    var id, s' := s.phases[c].id, ApplyLock(cfg, s, c);
    FastPathKeepsIDs(cfg, s, c);
    assert CallInv(s, c) && CountInv(cfg, s, id);
    forall x | x in s'.phases
      ensures CallInv(s', x) && WaiterInv(s', x) && ReceiverInv(cfg, s', x)
    {
      assert CallInv(s, x) && WaiterInv(s, x) && ReceiverInv(cfg, s, x);
    }
  }

  lemma QueuedKeepsInv(cfg: ValidConfig, s: State, c: Chan)
    requires Inv(cfg, s) && c in s.phases && s.phases[c].LockIn?
    requires EntryFor(cfg, s.locker, s.phases[c].id) == Queued
    ensures Inv(cfg, ApplyLock(cfg, s, c))
  {
    var id, s' := s.phases[c].id, ApplyLock(cfg, s, c);
    assert CallInv(s, c);
    HoldersSame(s, s', c, Waiting(id));
    forall other
      ensures QueueInv(cfg, s', other) && CountInv(cfg, s', other)
    {
      assert QueueInv(cfg, s, other) && CountInv(cfg, s, other);
      assert c !in QueueOf(s.locker, other);
    }
    forall x | x in s'.phases
      ensures CallInv(s', x) && WaiterInv(s', x) && ReceiverInv(cfg, s', x)
    {
      assert CallInv(s, x) && WaiterInv(s, x) && ReceiverInv(cfg, s, x);
    }
  }

  /** Dropping the head of an ordered queue. */
  lemma TailInOrder(q: seq<Chan>, ticket: map<Chan, nat>)
    requires q != [] && InOrder(q, ticket)
    ensures InOrder(q[1..], ticket) && Earlier(q[0], q[1..], ticket)
    ensures forall x :: x in q <==> x == q[0] || x in q[1..]
    ensures q[0] !in q[1..]
  {
  }

  lemma ConsInOrder(c: Chan, q: seq<Chan>, w: seq<Chan>, ticket: map<Chan, nat>)
    requires Earlier(c, q, ticket) && InOrder(w, ticket) && forall x :: x in w ==> x in q
    ensures InOrder([c] + w, ticket)
  {
    forall i | 0 <= i < |w|
      ensures ticket[c] < ticket[w[i]]
    {
      assert w[i] in q;
    }
  }

  lemma {:induction false} WithoutInOrder(q: seq<Chan>, c: Chan, ticket: map<Chan, nat>)
    requires InOrder(q, ticket)
    ensures InOrder(Without(q, c), ticket)
    ensures forall x :: x in Without(q, c) <==> x in q && x != c
    ensures |Without(q, c)| <= |q|
  {
    if q != [] {
      TailInOrder(q, ticket);
      if q[0] != c {
        WithoutInOrder(q[1..], c, ticket);
        ConsInOrder(q[0], q[1..], Without(q[1..], c), ticket);
      }
    }
  }

  lemma CleanupKeepsInv(cfg: ValidConfig, s: State, c: Chan)
    requires Inv(cfg, s) && c in s.phases && s.phases[c].LeavingIn?
    ensures Inv(cfg, Apply(cfg, s, Cleanup(c)))
  {
    var id, s' := s.phases[c].id, Apply(cfg, s, Cleanup(c));
    assert CallInv(s, c);
    HoldersSame(s, s', c, Failed(id));
    assert QueueInv(cfg, s, id);
    WithoutInOrder(QueueOf(s.locker, id), c, s.ticket);
    forall other
      ensures QueueInv(cfg, s', other) && CountInv(cfg, s', other)
    {
      assert QueueInv(cfg, s, other) && CountInv(cfg, s, other);
      if other != id {
        IDFrame(cfg, s, s', other);
      }
    }
    forall x | x in s'.phases
      ensures CallInv(s', x) && WaiterInv(s', x) && ReceiverInv(cfg, s', x)
    {
      assert CallInv(s, x) && WaiterInv(s, x) && ReceiverInv(cfg, s, x);
    }
  }

  lemma ReleaseOwnID(cfg: ValidConfig, s: State, c: Chan)
    requires Inv(cfg, s) && c in s.phases && s.phases[c].UnlockIn? && QueueOf(s.locker, s.phases[c].id) == []
    ensures var s' := ApplyUnlockTop(s, c); QueueInv(cfg, s', s.phases[c].id) && CountInv(cfg, s', s.phases[c].id)
  {
    var id, s' := s.phases[c].id, ApplyUnlockTop(s, c);
    assert c in Holders(s, id) && CountInv(cfg, s, id);
    HoldersAfter(s, s', c, Done(id), id);
  }

  lemma ReleaseKeepsIDs(cfg: ValidConfig, s: State, c: Chan)
    requires Inv(cfg, s) && c in s.phases && s.phases[c].UnlockIn? && QueueOf(s.locker, s.phases[c].id) == []
    ensures var s' := ApplyUnlockTop(s, c); forall id :: QueueInv(cfg, s', id) && CountInv(cfg, s', id)
  {
    var id, s' := s.phases[c].id, ApplyUnlockTop(s, c);
    ReleaseOwnID(cfg, s, c);
    forall other
      ensures QueueInv(cfg, s', other) && CountInv(cfg, s', other)
    {
      if other != id {
        assert QueueInv(cfg, s, other) && CountInv(cfg, s, other);
        HoldersAfter(s, s', c, Done(id), other);
        IDFrame(cfg, s, s', other);
      }
    }
  }

  lemma ReleaseKeepsInv(cfg: ValidConfig, s: State, c: Chan)
    requires Inv(cfg, s) && c in s.phases && s.phases[c].UnlockIn? && QueueOf(s.locker, s.phases[c].id) == []
    ensures Inv(cfg, ApplyUnlockTop(s, c))
  {
    var s' := ApplyUnlockTop(s, c);
    ReleaseKeepsIDs(cfg, s, c);
    assert CallInv(s, c);
    forall x | x in s'.phases
      ensures CallInv(s', x) && WaiterInv(s', x) && ReceiverInv(cfg, s', x)
    {
      assert CallInv(s, x) && WaiterInv(s, x) && ReceiverInv(cfg, s, x);
    }
  }

  lemma PopKeepsIDs(cfg: ValidConfig, s: State, c: Chan)
    requires Inv(cfg, s) && c in s.phases && s.phases[c].UnlockIn? && QueueOf(s.locker, s.phases[c].id) != []
    ensures var s' := ApplyUnlockTop(s, c); forall id :: QueueInv(cfg, s', id) && CountInv(cfg, s', id)
  {
    var id, s' := s.phases[c].id, ApplyUnlockTop(s, c);
    var q := QueueOf(s.locker, id);
    assert CallInv(s, c);
    HoldersSame(s, s', c, UnlockReceive(id, q[0]));
    forall other
      ensures QueueInv(cfg, s', other) && CountInv(cfg, s', other)
    {
      assert QueueInv(cfg, s, other) && CountInv(cfg, s, other);
      if other != id {
        IDFrame(cfg, s, s', other);
      } else {
        TailInOrder(q, s.ticket);
      }
    }
  }

  lemma PopKeepsInv(cfg: ValidConfig, s: State, c: Chan)
    requires Inv(cfg, s) && c in s.phases && s.phases[c].UnlockIn? && QueueOf(s.locker, s.phases[c].id) != []
    ensures Inv(cfg, ApplyUnlockTop(s, c))
  {
    var id, s' := s.phases[c].id, ApplyUnlockTop(s, c);
    var q := QueueOf(s.locker, id);
    PopKeepsIDs(cfg, s, c);
    assert QueueInv(cfg, s, id) && CountInv(cfg, s, id);
    TailInOrder(q, s.ticket);
    assert CallInv(s, q[0]) && CallInv(s, c);
    forall x | x in s'.phases
      ensures CallInv(s', x) && WaiterInv(s', x) && ReceiverInv(cfg, s', x)
    {
      assert CallInv(s, x) && WaiterInv(s, x) && ReceiverInv(cfg, s, x);
    }
  }

  /** A hand-off replaces one holder of the ID by another, and changes no other ID's holders. */
  lemma HandOffHolders(cfg: ValidConfig, s: State, c: Chan)
    requires Inv(cfg, s) && Enabled(s, Receive(c)) && s.phases[s.phases[c].from].Waiting?
    ensures |Holders(ApplyReceive(s, c), s.phases[c].id)| == |Holders(s, s.phases[c].id)|
    ensures forall other :: other != s.phases[c].id ==> Holders(ApplyReceive(s, c), other) == Holders(s, other)
  {
    var id, from, s' := s.phases[c].id, s.phases[c].from, ApplyReceive(s, c);
    assert ReceiverInv(cfg, s, c);
    assert c in Holders(s, id) && from !in Holders(s, id);
    assert Holders(s', id) == Holders(s, id) - {c} + {from};
    forall other | other != id
      ensures Holders(s', other) == Holders(s, other)
    {
    }
  }

  lemma HandOffKeepsIDs(cfg: ValidConfig, s: State, c: Chan)
    requires Inv(cfg, s) && Enabled(s, Receive(c)) && s.phases[s.phases[c].from].Waiting?
    ensures var s' := ApplyReceive(s, c); forall id :: QueueInv(cfg, s', id) && CountInv(cfg, s', id)
  {
    var id, from, s' := s.phases[c].id, s.phases[c].from, ApplyReceive(s, c);
    HandOffHolders(cfg, s, c);
    assert ReceiverInv(cfg, s, c);
    forall other
      ensures QueueInv(cfg, s', other) && CountInv(cfg, s', other)
    {
      assert QueueInv(cfg, s, other) && CountInv(cfg, s, other);
    }
  }

  lemma HandOffKeepsInv(cfg: ValidConfig, s: State, c: Chan)
    requires Inv(cfg, s) && Enabled(s, Receive(c)) && s.phases[s.phases[c].from].Waiting?
    ensures Inv(cfg, ApplyReceive(s, c))
  {
    var s' := ApplyReceive(s, c);
    HandOffKeepsIDs(cfg, s, c);
    assert CallInv(s, c) && ReceiverInv(cfg, s, c);
    forall x | x in s'.phases
      ensures CallInv(s', x) && WaiterInv(s', x) && ReceiverInv(cfg, s', x)
    {
      assert CallInv(s, x) && WaiterInv(s, x) && ReceiverInv(cfg, s, x);
    }
  }

  lemma InitInv(cfg: ValidConfig)
    ensures Inv(cfg, Init())
  {
    forall id
      ensures QueueInv(cfg, Init(), id) && CountInv(cfg, Init(), id)
    {
      assert Holders(Init(), id) == {};
    }
  }

  lemma StepKeepsInv(cfg: ValidConfig, s: State, a: Action)
    requires Inv(cfg, s)
    ensures Inv(cfg, Step(cfg, s, a))
  {
    if Enabled(s, a) {
      match a
      case CallLock(_, _) => CallLockKeepsInv(cfg, s, a);
      case TakeMutex(_) => TakeMutexKeepsInv(cfg, s, a);
      case Cancel(_) => CancelKeepsInv(cfg, s, a);
      case Cleanup(c) => CleanupKeepsInv(cfg, s, c);
      case CallUnlock(_) => CallUnlockKeepsInv(cfg, s, a);
      case LockBody(c) =>
        match EntryFor(cfg, s.locker, s.phases[c].id) {
          case Acquired => FastPathKeepsInv(cfg, s, c);
          case QueueFull => QueueFullKeepsInv(cfg, s, c);
          case Queued => QueuedKeepsInv(cfg, s, c);
        }
      case UnlockTop(c) =>
        if QueueOf(s.locker, s.phases[c].id) == [] {
          ReleaseKeepsInv(cfg, s, c);
        } else {
          PopKeepsInv(cfg, s, c);
        }
      case Receive(c) =>
        if s.phases[s.phases[c].from].Waiting? {
          HandOffKeepsInv(cfg, s, c);
        } else {
          RetryKeepsInv(cfg, s, c);
        }
    }
  }

  lemma {:induction false} RunFromKeepsInv(cfg: ValidConfig, s: State, actions: seq<Action>)
    requires Inv(cfg, s)
    ensures Inv(cfg, RunFrom(cfg, s, actions))
    decreases |actions|
  {
    if actions != [] {
      StepKeepsInv(cfg, s, actions[0]);
      RunFromKeepsInv(cfg, Step(cfg, s, actions[0]), actions[1..]);
    }
  }

  lemma RunKeepsInv(cfg: ValidConfig, actions: seq<Action>)
    ensures Inv(cfg, Run(cfg, actions))
  {
    InitInv(cfg);
    RunFromKeepsInv(cfg, Init(), actions);
  }

  // ---- What every run guarantees ----

  /** count[id] is the number of current holders of id, never above MaxHeld. */
  lemma CountIsHolders(cfg: ValidConfig, actions: seq<Action>, id: ID)
    ensures var s := Run(cfg, actions); CountOf(s.locker, id) == |Holders(s, id)| <= cfg.maxHeld
  {
    RunKeepsInv(cfg, actions);
    assert CountInv(cfg, Run(cfg, actions), id);
  }

  /** Work conservation: nobody is queued for an ID unless all of its MaxHeld locks are held. */
  lemma QueuedOnlyWhenFull(cfg: ValidConfig, actions: seq<Action>, id: ID)
    ensures var s := Run(cfg, actions); QueueOf(s.locker, id) != [] ==> |Holders(s, id)| == cfg.maxHeld
  {
    RunKeepsInv(cfg, actions);
    assert CountInv(cfg, Run(cfg, actions), id);
  }

  /** No leaks: only positive counts and non-empty queues have map entries, and queues respect MaxWait. */
  lemma NothingLeaks(cfg: ValidConfig, actions: seq<Action>, id: ID)
    ensures var l := Run(cfg, actions).locker; (id in l.count ==> l.count[id] > 0) && (id in l.queue ==> l.queue[id] != [])
    ensures var l := Run(cfg, actions).locker; cfg.maxWait >= 0 ==> |QueueOf(l, id)| <= cfg.maxWait
  {
    RunKeepsInv(cfg, actions);
    assert CountInv(cfg, Run(cfg, actions), id) && QueueInv(cfg, Run(cfg, actions), id);
  }

  /** A Lock call that was granted, by the fast path or by a hand-off, never returns an error, now or later. */
  lemma GrantedNeverFails(cfg: ValidConfig, before: seq<Action>, after: seq<Action>, c: Chan)
    requires c in Run(cfg, before).granted
    ensures var s := RunFrom(cfg, Run(cfg, before), after); c in s.phases && c in s.granted && !s.phases[c].Failed?
  {
    RunKeepsInv(cfg, before);
    RunFromKeepsInv(cfg, Run(cfg, before), after);
    GrantedStays(cfg, Run(cfg, before), after, c);
    assert CallInv(RunFrom(cfg, Run(cfg, before), after), c);
  }

  lemma {:induction false} GrantedStays(cfg: ValidConfig, s: State, after: seq<Action>, c: Chan)
    requires Inv(cfg, s) && c in s.granted
    ensures c in RunFrom(cfg, s, after).granted
    decreases |after|
  {
    if after != [] {
      StepKeepsInv(cfg, s, after[0]);
      GrantedStays(cfg, Step(cfg, s, after[0]), after[1..], c);
    }
  }

  /** First come, first served: a hand-off goes to the waiter that queued before every other one still waiting. */
  lemma HandOffIsFair(cfg: ValidConfig, actions: seq<Action>, u: Chan, other: Chan)
    requires var s := Run(cfg, actions);
             && Enabled(s, Receive(u)) && s.phases[s.phases[u].from].Waiting?
             && other in s.phases && s.phases[other] == Waiting(s.phases[u].id) && other != s.phases[u].from
    ensures var s := Run(cfg, actions);
            var granted := s.phases[u].from;
            && granted in s.ticket && other in s.ticket && s.ticket[granted] < s.ticket[other]
            && granted in Step(cfg, s, Receive(u)).granted
  {
    var s := Run(cfg, actions);
    RunKeepsInv(cfg, actions);
    assert ReceiverInv(cfg, s, u) && CallInv(s, u) && WaiterInv(s, other);
    var q := QueueOf(s.locker, s.phases[u].id);
    var i :| 0 <= i < |q| && q[i] == other;
  }

  /** The fast path never overtakes: it is taken only when no one waits for the ID. */
  lemma FastPathIsFair(cfg: ValidConfig, actions: seq<Action>, c: Chan, other: Chan)
    requires var s := Run(cfg, actions);
             && Enabled(s, LockBody(c)) && EntryFor(cfg, s.locker, s.phases[c].id) == Acquired && other in s.phases
    ensures Run(cfg, actions).phases[other] != Waiting(Run(cfg, actions).phases[c].id)
  {
    var s := Run(cfg, actions);
    RunKeepsInv(cfg, actions);
    assert CountInv(cfg, s, s.phases[c].id) && WaiterInv(s, other) && CallInv(s, c);
  }

  /**
   What a Lock call gets, in every run: the lock exactly if fewer than MaxHeld calls hold it, an error exactly if they
   are MaxHeld and the queue is full, and otherwise the last place in the queue, which nobody else's call changes.
   */
  lemma {:induction false} LockOutcome(cfg: ValidConfig, actions: seq<Action>, c: Chan)
    requires Enabled(Run(cfg, actions), LockBody(c))
    ensures var s := Run(cfg, actions);
            var t := Step(cfg, s, LockBody(c));
            var id, q := s.phases[c].id, QueueOf(s.locker, s.phases[c].id);
            && c in t.phases && t.mutex == None
            && (t.phases[c] == Holding(id) <==> |Holders(s, id)| < cfg.maxHeld)
            && (t.phases[c] == Failed(id)
                <==> |Holders(s, id)| == cfg.maxHeld && cfg.maxWait != -1 && |q| >= cfg.maxWait)
            && (t.phases[c] == Waiting(id)
                <==> |Holders(s, id)| == cfg.maxHeld && (cfg.maxWait == -1 || |q| < cfg.maxWait))
            && QueueOf(t.locker, id) == (if t.phases[c] == Waiting(id) then q + [c] else q)
            && (forall other :: other != id ==> QueueOf(t.locker, other) == QueueOf(s.locker, other))
            && (forall other :: other in s.phases && other != c ==> other in t.phases && t.phases[other] == s.phases[other])
  {
    var s := Run(cfg, actions);
    RunKeepsInv(cfg, actions);
    assert CountInv(cfg, s, s.phases[c].id);
  }

  /** A call that gives up fails, leaves the queue, and nobody else in it moves or is lost. */
  lemma {:induction false} CancelOutcome(cfg: ValidConfig, actions: seq<Action>, c: Chan)
    requires Enabled(Run(cfg, actions), Cleanup(c))
    ensures var s := Run(cfg, actions);
            var t := Step(cfg, s, Cleanup(c));
            var id := s.phases[c].id;
            && c in t.phases && t.phases[c] == Failed(id) && t.mutex == None
            && InOrder(QueueOf(t.locker, id), s.ticket)
            && (forall x :: x in QueueOf(t.locker, id) <==> x in QueueOf(s.locker, id) && x != c)
            && (forall other :: other != id ==> QueueOf(t.locker, other) == QueueOf(s.locker, other))
  {
    var s := Run(cfg, actions);
    RunKeepsInv(cfg, actions);
    assert QueueInv(cfg, s, s.phases[c].id);
    WithoutInOrder(QueueOf(s.locker, s.phases[c].id), c, s.ticket);
  }

  /** With nobody queued, Unlock ends one holding, and in no run does it find nothing to end. */
  lemma {:induction false} ReleaseOutcome(cfg: ValidConfig, actions: seq<Action>, c: Chan)
    requires var s := Run(cfg, actions); Enabled(s, UnlockTop(c)) && QueueOf(s.locker, s.phases[c].id) == []
    ensures var s := Run(cfg, actions);
            var t := Step(cfg, s, UnlockTop(c));
            var id := s.phases[c].id;
            && c in t.phases && t.phases[c] == Done(id) && t.mutex == None
            && CountOf(t.locker, id) == CountOf(s.locker, id) - 1 >= 0
            && Holders(t, id) == Holders(s, id) - {c}
  {
    var s := Run(cfg, actions);
    RunKeepsInv(cfg, actions);
    assert CountInv(cfg, s, s.phases[c].id) && c in Holders(s, s.phases[c].id);
    HoldersAfter(s, Step(cfg, s, UnlockTop(c)), c, Done(s.phases[c].id), s.phases[c].id);
  }

  // ---- Unlock never gets stuck ----

  /** The next step of the call that owns the mutex. */
  function OwnerAction(s: State, u: Chan): Action
    requires u in s.phases
  {
    match s.phases[u]
    case LockIn(_) => LockBody(u)
    case LeavingIn(_) => Cleanup(u)
    case UnlockIn(_) => UnlockTop(u)
    case _ => Receive(u)
  }

  /** The mutex owner can always move: the other side of a receive can send or has closed, without the mutex. */
  lemma OwnerCanMove(cfg: ValidConfig, s: State, u: Chan)
    requires Inv(cfg, s) && s.mutex == Some(u)
    ensures Enabled(s, OwnerAction(s, u))
  {
    assert CallInv(s, u) && ReceiverInv(cfg, s, u);
  }

  /** An upper bound on the steps the owner still takes before it releases the mutex. */
  function StepsLeft(s: State, u: Chan): nat
    requires u in s.phases
  {
    match s.phases[u]
    case UnlockIn(id) => 2 * |QueueOf(s.locker, id)| + 1
    case UnlockReceive(id, _) => 2 * |QueueOf(s.locker, id)| + 2
    case _ => 1
  }

  /** Each own step brings the owner closer to releasing the mutex; no step of another call sets it back. */
  lemma OwnerProgress(cfg: ValidConfig, s: State, u: Chan, a: Action)
    requires Inv(cfg, s) && s.mutex == Some(u) && Enabled(s, a)
    ensures var s' := Apply(cfg, s, a);
            && u in s'.phases && (s'.mutex == Some(u) || s'.mutex == None)
            && (a == OwnerAction(s, u) ==> s'.mutex == None || StepsLeft(s', u) < StepsLeft(s, u))
            && (a != OwnerAction(s, u) ==> s'.mutex == Some(u) && StepsLeft(s', u) == StepsLeft(s, u))
  {
    assert CallInv(s, u) && ReceiverInv(cfg, s, u);
    if a.c in s.phases {
      assert CallInv(s, a.c);
    }
  }

  /** How often the owner moves along actions, while it keeps the mutex. */
  function OwnerMoves(cfg: ValidConfig, s: State, u: Chan, actions: seq<Action>): nat
    decreases |actions|
  {
    if actions == [] || s.mutex != Some(u) || u !in s.phases then 0
    else (if Enabled(s, actions[0]) && actions[0] == OwnerAction(s, u) then 1 else 0)
         + OwnerMoves(cfg, Step(cfg, s, actions[0]), u, actions[1..])
  }

  /**
   Unlock never gets stuck. From any reachable state in which u owns the mutex, whatever the other calls do, u can
   always move, and it moves at most StepsLeft times before the mutex is free: the retry loop terminates.
   */
  lemma UnlockNeverStuck(cfg: ValidConfig, before: seq<Action>, u: Chan, after: seq<Action>)
    requires Run(cfg, before).mutex == Some(u)
    ensures var s := Run(cfg, before);
            u in s.phases && OwnerMoves(cfg, s, u, after) <= StepsLeft(s, u)
    ensures var s' := RunFrom(cfg, Run(cfg, before), after);
            s'.mutex == Some(u) ==> u in s'.phases && Enabled(s', OwnerAction(s', u))
  {
    RunKeepsInv(cfg, before);
    MutexIsReleased(cfg, Run(cfg, before), u, after);
  }

  lemma {:induction false} MutexIsReleased(cfg: ValidConfig, s: State, u: Chan, actions: seq<Action>)
    requires Inv(cfg, s) && s.mutex == Some(u)
    ensures OwnerMoves(cfg, s, u, actions) <= StepsLeft(s, u)
    ensures var s' := RunFrom(cfg, s, actions);
            s'.mutex == Some(u) ==> u in s'.phases && Enabled(s', OwnerAction(s', u))
    decreases |actions|
  {
    RunFromKeepsInv(cfg, s, actions);
    if RunFrom(cfg, s, actions).mutex == Some(u) {
      OwnerCanMove(cfg, RunFrom(cfg, s, actions), u);
    }
    if actions != [] {
      var s' := Step(cfg, s, actions[0]);
      StepKeepsInv(cfg, s, actions[0]);
      if Enabled(s, actions[0]) {
        OwnerProgress(cfg, s, u, actions[0]);
      }
      if s'.mutex == Some(u) {
        MutexIsReleased(cfg, s', u, actions[1..]);
      }
    }
  }

  /**
   Left alone, an unlocker's single steps perform exactly the loop of Unlock: the waiters that have
   abandoned are the channels it finds closed.
   */
  lemma {:induction false} UnlockStepsAreTheLoop(cfg: ValidConfig, s: State, u: Chan, closed: set<Chan>)
      returns (actions: seq<Action>)
    requires Inv(cfg, s) && s.mutex == Some(u) && u in s.phases && s.phases[u].UnlockIn?
    requires forall c :: c in QueueOf(s.locker, s.phases[u].id) && c in s.phases ==> (c in closed <==> Closed(s.phases[c]))
    ensures var s' := RunFrom(cfg, s, actions);
            var (locker, outcome) := UnlockLoop(s.locker, s.phases[u].id, closed);
            && s'.mutex == None && s'.locker == locker
            && (outcome.HandedTo? ==> s'.granted == s.granted + {outcome.ch})
            && (outcome.Decremented? ==> s'.granted == s.granted)
    decreases |QueueOf(s.locker, s.phases[u].id)|
  {
    var id := s.phases[u].id;
    var q := QueueOf(s.locker, id);
    if q == [] {
      actions := [UnlockTop(u)];
      assert RunFrom(cfg, s, actions) == RunFrom(cfg, Step(cfg, s, UnlockTop(u)), []);
    } else {
      PopAndReceive(cfg, s, u);
      var s2 := Step(cfg, Step(cfg, s, UnlockTop(u)), Receive(u));
      var rest := [];
      if q[0] in closed {
        rest := UnlockStepsAreTheLoop(cfg, s2, u, closed);
      }
      actions := [UnlockTop(u)] + ([Receive(u)] + rest);
      TwoSteps(cfg, s, UnlockTop(u), Receive(u), rest);
    }
  }

  /** After a pop, the receive is enabled: the popped call waits or has closed its channel. */
  lemma PoppedIsReceivable(cfg: ValidConfig, s: State, u: Chan)
    requires Inv(cfg, s) && s.mutex == Some(u) && u in s.phases && s.phases[u].UnlockIn?
    requires QueueOf(s.locker, s.phases[u].id) != []
    ensures var s1 := ApplyUnlockTop(s, u);
            Inv(cfg, s1) && s1.mutex == Some(u) && Enabled(s1, Receive(u)) && Inv(cfg, ApplyReceive(s1, u))
  {
    var s1 := ApplyUnlockTop(s, u);
    StepKeepsInv(cfg, s, UnlockTop(u));
    OwnerCanMove(cfg, s1, u);
    StepKeepsInv(cfg, s1, Receive(u));
  }

  /** One round of Unlock's loop on a non-empty queue. */
  lemma PopAndReceive(cfg: ValidConfig, s: State, u: Chan)
    requires Inv(cfg, s) && s.mutex == Some(u) && u in s.phases && s.phases[u].UnlockIn?
    requires QueueOf(s.locker, s.phases[u].id) != []
    ensures var id, ch := s.phases[u].id, QueueOf(s.locker, s.phases[u].id)[0];
            var s2 := Step(cfg, Step(cfg, s, UnlockTop(u)), Receive(u));
            && Inv(cfg, s2) && ch in s.phases && s2.locker == PopQueue(s.locker, id)
            && if Closed(s.phases[ch])
               then s2.mutex == Some(u) && s2.phases == s.phases && s2.granted == s.granted
               else s2.mutex == None && s2.granted == s.granted + {ch}
  {
    PoppedIsReceivable(cfg, s, u);
    var s1 := ApplyUnlockTop(s, u);
    var ch := QueueOf(s.locker, s.phases[u].id)[0];
    assert ch != u;
    if Closed(s.phases[ch]) {
      assert ApplyReceive(s1, u).phases == s.phases;
    }
  }

  lemma TwoSteps(cfg: ValidConfig, s: State, a: Action, b: Action, rest: seq<Action>)
    ensures RunFrom(cfg, s, [a] + ([b] + rest)) == RunFrom(cfg, Step(cfg, Step(cfg, s, a), b), rest)
  {
    assert ([a] + ([b] + rest))[1..] == [b] + rest;
    assert ([b] + rest)[1..] == rest;
  }
}
