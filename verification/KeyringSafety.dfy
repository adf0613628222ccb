/** What holds in every reachable state of the keyring protocol, and the theorems about signatures. */
module KeyringSafety {
  import opened Common
  import opened SignatureCodec
  import opened KeyringStore
  import opened KeyringProtocol

  /** A copy is genuine when it is what the row once held, at the copy's rotation count. */
  ghost predicate Genuine(cfg: ValidConfig, local: Local, keys: seq<Key>) {
    && local.rotationCount + 2 <= |keys|
    && local.verificationKeys == Window(keys, local.rotationCount, cfg.maxOldKeys)
    && (local.signingKey.Some? ==> local.signingKey.value == keys[local.rotationCount])
  }

  ghost predicate RowInv(cfg: ValidConfig, s: System) {
    if s.row.NoRow? then s.keys == []
    else
      && |s.keys| == s.row.rotationCount + 2
      && s.row.verificationKeys == Window(s.keys, s.row.rotationCount, cfg.maxOldKeys)
      && s.row.signingKey == s.keys[s.row.rotationCount]
      && s.row.nextKey == s.keys[s.row.rotationCount + 1]
  }

  ghost predicate KeysInv(s: System) {
    Distinct(s.keys) && forall i :: 0 <= i < |s.keys| ==> s.keys[i] in s.generated
  }

  ghost predicate ProcessInv(cfg: ValidConfig, process: Process, keys: seq<Key>) {
    && (process.ready ==> Genuine(cfg, process.local, keys))
    && (process.phase.Fetched? ==> Genuine(cfg, process.phase.local, keys))
  }

  ghost predicate IssuedInv(x: Issued, keys: seq<Key>, made: Ecdsa) {
    && x.rotation + 2 <= |keys|
    && x.sig.keyIndex == ToByte(x.rotation)
    && x.sig.r < TWO_POW_224 && x.sig.s < TWO_POW_224
    && (x.sig.r, x.sig.s) in made && made[(x.sig.r, x.sig.s)] == (keys[x.rotation], x.message)
  }

  /** Nothing is signed but by the processes. */
  ghost predicate MadeInv(s: System) {
    forall r, t :: (r, t) in s.made ==> exists x :: x in s.issued && x.sig.r == r && x.sig.s == t
  }

  ghost predicate Inv(cfg: ValidConfig, s: System) {
    && RowInv(cfg, s)
    && KeysInv(s)
    && (forall p :: p in s.processes ==> ProcessInv(cfg, s.processes[p], s.keys))
    && (forall x :: x in s.issued ==> IssuedInv(x, s.keys, s.made))
    && MadeInv(s)
  }

  lemma GenuineSurvives(cfg: ValidConfig, local: Local, keys: seq<Key>, more: seq<Key>)
    requires Genuine(cfg, local, keys)
    ensures Genuine(cfg, local, keys + more)
  {
    WindowPrefix(keys, more, local.rotationCount, cfg.maxOldKeys);
  }

  /** New keys in the row invalidate nothing that processes or signatures rely on. */
  lemma GrowKeys(cfg: ValidConfig, s: System, more: seq<Key>)
    requires Inv(cfg, s)
    ensures forall p :: p in s.processes ==> ProcessInv(cfg, s.processes[p], s.keys + more)
    ensures forall x :: x in s.issued ==> IssuedInv(x, s.keys + more, s.made)
  {
    forall p | p in s.processes
      ensures ProcessInv(cfg, s.processes[p], s.keys + more)
    {
      if s.processes[p].ready {
        GenuineSurvives(cfg, s.processes[p].local, s.keys, more);
      }
      if s.processes[p].phase.Fetched? {
        GenuineSurvives(cfg, s.processes[p].phase.local, s.keys, more);
      }
    }
  }

  lemma RowSnapshotGenuine(cfg: ValidConfig, s: System, loadOk: bool)
    requires RowInv(cfg, s) && s.row.Row?
    ensures Genuine(cfg, Snapshot(s.row, loadOk), s.keys)
  {
  }

  lemma BeginKeepsInv(cfg: ValidConfig, s: System, p: ProcessID, force: bool, newKey: Key, loadOk: bool)
    requires Inv(cfg, s) && s.row.Row? && p in s.processes && newKey !in s.generated
    ensures Inv(cfg, BeginWithRow(cfg, s, p, force, newKey, loadOk))
  {
    var s' := BeginWithRow(cfg, s, p, force, newKey, loadOk);
    MadeInvFrame(s, s');
    if RotationDue(s.row, force, s.clock) {
      GrowKeys(cfg, s, [newKey]);
      WindowPrefix(s.keys, [newKey], s.row.rotationCount, cfg.maxOldKeys);
      RotatedWindow(s'.keys, s.row.rotationCount, cfg.maxOldKeys);
      assert RowInv(cfg, s');
    }
    RowSnapshotGenuine(cfg, s', loadOk);
  }

  lemma MadeInvFrame(s: System, s': System)
    requires MadeInv(s) && s'.made == s.made && s'.issued == s.issued
    ensures MadeInv(s')
  {
    forall r, t | (r, t) in s'.made
      ensures exists x :: x in s'.issued && x.sig.r == r && x.sig.s == t
    {
      var x :| x in s.issued && x.sig.r == r && x.sig.s == t;
    }
  }

  lemma FirstInsertKeepsKeys(cfg: ValidConfig, s: System, a: Action)
    requires RowInv(cfg, s) && KeysInv(s) && a.Insert? && Enabled(s, a) && s.row.NoRow?
    ensures RowInv(cfg, Apply(cfg, s, a)) && KeysInv(Apply(cfg, s, a))
  {
    FirstWindow(Apply(cfg, s, a).keys, cfg.maxOldKeys);
  }

  lemma InsertKeepsInv(cfg: ValidConfig, s: System, a: Action)
    requires Inv(cfg, s) && a.Insert? && Enabled(s, a)
    ensures Inv(cfg, Apply(cfg, s, a))
  {
    var s' := Apply(cfg, s, a);
    MadeInvFrame(s, s');
    if s.row.NoRow? {
      FirstInsertKeepsKeys(cfg, s, a);
      GrowKeys(cfg, s, s'.keys);
      assert s.keys + s'.keys == s'.keys;
      RowSnapshotGenuine(cfg, s', true);
    }
  }

  lemma SignKeepsInv(cfg: ValidConfig, s: System, a: Action)
    requires Inv(cfg, s) && a.SignMessage? && Enabled(s, a)
    ensures Inv(cfg, Apply(cfg, s, a))
  {
    var s' := Apply(cfg, s, a);
    forall x | x in s'.issued
      ensures IssuedInv(x, s'.keys, s'.made)
    {
    }
  }

  lemma StepKeepsInv(cfg: ValidConfig, s: System, a: Action)
    requires Inv(cfg, s)
    ensures Inv(cfg, Step(cfg, s, a))
  {
    if Enabled(s, a) {
      match a
      case Begin(p, force, newKey, loadOk) =>
        if s.row.Row? {
          BeginKeepsInv(cfg, s, p, force, newKey, loadOk);
        }
      case Insert(_, _, _) => InsertKeepsInv(cfg, s, a);
      case SignMessage(_, _, _, _) => SignKeepsInv(cfg, s, a);
      case Reread(_, loadOk) => RowSnapshotGenuine(cfg, s, loadOk);
      case _ =>
    }
  }

  lemma {:induction false} RunKeepsInv(cfg: ValidConfig, actions: seq<Action>)
    ensures Inv(cfg, Run(cfg, actions))
  {
    if actions != [] {
      RunKeepsInv(cfg, actions[..|actions| - 1]);
      StepKeepsInv(cfg, Run(cfg, actions[..|actions| - 1]), actions[|actions| - 1]);
    }
  }

  // ---- Which signatures verify where ----

  /** Rotation a is inside the window of a copy at rotation b. */
  predicate InWindow(a: int, b: int, maxOldKeys: int) {
    b - maxOldKeys <= a <= b + 1
  }

  /** A signature by the key of index a, checked against the genuine copy of rotation b. */
  lemma ValidatesExactly(cfg: ValidConfig, local: Local, keys: seq<Key>, made: Ecdsa, x: Issued)
    requires Genuine(cfg, local, keys) && Distinct(keys) && IssuedInv(x, keys, made)
    ensures Validates(local, made, x.message, x.sig) <==> InWindow(x.rotation, local.rotationCount, cfg.maxOldKeys)
    ensures InWindow(x.rotation, local.rotationCount, cfg.maxOldKeys) ==>
              (IsOldIndex(local, x.sig.keyIndex) <==> x.rotation < local.rotationCount)
    ensures forall p :: p != x.message ==> !Validates(local, made, p, x.sig)
  {
    var a, b := x.rotation, local.rotationCount;
    var i := IndexFor(ToByte(a), b);
    IndexForByte(ToByte(a), b);
    if InWindow(a, b, cfg.maxOldKeys) {
      IndexForExact(ToByte(a), b, a);
      IndexForExact(ToByte(b), b, a);
      IndexForExact(ToByte(b + 1), b, a);
      OldIndexExact(a, b);
    } else if ToByte(a) in local.verificationKeys {
      assert keys[i] != keys[a];
    }
  }

  lemma OldIndexExact(a: nat, b: nat)
    requires b - 254 <= a <= b + 1
    ensures ToByte(a) != ToByte(b) && ToByte(a) != ToByte(b + 1) <==> a < b
  {
    if a < b {
      SameByteStep(b, a);
      SameByteStep(b + 1, a);
    }
  }

  /**
   Safety over every run: a signature made at rotation a verifies at a process that is at rotation b exactly
   when b - MaxOldKeys <= a <= b + 1, and is reported old exactly when a < b, even where the index byte was reused.
   */
  lemma {:induction false} SignaturesVerifyExactly(cfg: ValidConfig, actions: seq<Action>, p: ProcessID, x: Issued)
    requires var s := Run(cfg, actions); p in s.processes && s.processes[p].ready && x in s.issued
    ensures var s := Run(cfg, actions);
            var local := s.processes[p].local;
            var (valid, oldKey) := VerifyBytes(local, s.made, x.message, Encode(x.sig));
            && (valid <==> InWindow(x.rotation, local.rotationCount, cfg.maxOldKeys))
            && (oldKey <==> valid && x.rotation < local.rotationCount)
    ensures var s := Run(cfg, actions);
            var local := s.processes[p].local;
            forall m :: m != x.message ==> VerifyBytes(local, s.made, m, Encode(x.sig)) == (false, false)
  {
    var s := Run(cfg, actions);
    RunKeepsInv(cfg, actions);
    assert ProcessInv(cfg, s.processes[p], s.keys) && IssuedInv(x, s.keys, s.made);
    ValidatesExactly(cfg, s.processes[p].local, s.keys, s.made, x);
    SignatureRoundTrip(x.sig);
  }

  /** What validates is exactly an issued signature of that message inside the window. */
  lemma ValidatedIsIssued(cfg: ValidConfig, s: System, local: Local, m: Message, sig: Signature) returns (x: Issued)
    requires Inv(cfg, s) && Genuine(cfg, local, s.keys) && Validates(local, s.made, m, sig)
    ensures x in s.issued && x.message == m && x.sig == sig && InWindow(x.rotation, local.rotationCount, cfg.maxOldKeys)
  {
    assert (sig.r, sig.s) in s.made;
    x :| x in s.issued && x.sig.r == sig.r && x.sig.s == sig.s;
    var b := local.rotationCount;
    var i := IndexFor(sig.keyIndex, b);
    IndexForByte(sig.keyIndex, b);
    assert IssuedInv(x, s.keys, s.made) && s.keys[i] == s.keys[x.rotation];
    assert i == x.rotation;
  }

  /** A signature of m, issued inside the window of the copy. */
  ghost predicate IssuedFor(cfg: ValidConfig, s: System, local: Local, m: Message, x: Issued) {
    x in s.issued && x.message == m && InWindow(x.rotation, local.rotationCount, cfg.maxOldKeys)
  }

  /**
   Verify on arbitrary bytes: in every run, a ready process accepts m exactly when the bytes carry the index and the
   numbers of a signature of m issued inside its window, and reports an old key exactly for one of an earlier rotation.
   */
  lemma {:induction false} VerifyAcceptsExactly(cfg: ValidConfig, actions: seq<Action>, p: ProcessID, m: Message, bytes: seq<Byte>)
    requires p in Run(cfg, actions).processes && Run(cfg, actions).processes[p].ready
    ensures var s := Run(cfg, actions);
            var local := s.processes[p].local;
            var (valid, oldKey) := VerifyBytes(local, s.made, m, bytes);
            && (valid <==> exists x :: IssuedFor(cfg, s, local, m, x) && Carries(bytes, x.sig))
            && (oldKey <==> exists x :: IssuedFor(cfg, s, local, m, x) && Carries(bytes, x.sig) && x.rotation < local.rotationCount)
  {
    RunKeepsInv(cfg, actions);
    VerifyInState(cfg, Run(cfg, actions), p, m, bytes);
  }

  lemma VerifyInState(cfg: ValidConfig, s: System, p: ProcessID, m: Message, bytes: seq<Byte>)
    requires Inv(cfg, s) && p in s.processes && s.processes[p].ready
    ensures var local := s.processes[p].local;
            var (valid, oldKey) := VerifyBytes(local, s.made, m, bytes);
            && (valid <==> exists x :: IssuedFor(cfg, s, local, m, x) && Carries(bytes, x.sig))
            && (oldKey <==> exists x :: IssuedFor(cfg, s, local, m, x) && Carries(bytes, x.sig) && x.rotation < local.rotationCount)
  {
    var local := s.processes[p].local;
    assert ProcessInv(cfg, s.processes[p], s.keys);
    forall x | IssuedFor(cfg, s, local, m, x) && Carries(bytes, x.sig)
      ensures VerifyBytes(local, s.made, m, bytes) == (true, x.rotation < local.rotationCount)
    {
      DecodesWhatBytesCarry(bytes, x.sig);
      assert IssuedInv(x, s.keys, s.made);
      ValidatesExactly(cfg, local, s.keys, s.made, x);
    }
    var (valid, oldKey) := VerifyBytes(local, s.made, m, bytes);
    if valid {
      var sig := Decode(bytes).value;
      DecodesWhatBytesCarry(bytes, sig);
      var x := ValidatedIsIssued(cfg, s, local, m, sig);
      assert IssuedFor(cfg, s, local, m, x);
    }
  }

  /** The key check of tokens on any index and numbers: accepted exactly if issued for that text inside the window. */
  lemma {:induction false} TokensAcceptExactly(cfg: ValidConfig, actions: seq<Action>, p: ProcessID, m: Message, sig: Signature,
                                               current: bool)
    requires p in Run(cfg, actions).processes && Run(cfg, actions).processes[p].ready
    ensures var s := Run(cfg, actions);
            var local := s.processes[p].local;
            VerifyToken(local, s.made, m, sig) == Ok(current)
            <==> exists x :: IssuedFor(cfg, s, local, m, x) && x.sig == sig && current == (x.rotation >= local.rotationCount)
  {
    var s := Run(cfg, actions);
    RunKeepsInv(cfg, actions);
    TokenInState(cfg, s, p, m, sig, current);
  }

  lemma TokenInState(cfg: ValidConfig, s: System, p: ProcessID, m: Message, sig: Signature, current: bool)
    requires Inv(cfg, s) && p in s.processes && s.processes[p].ready
    ensures var local := s.processes[p].local;
            VerifyToken(local, s.made, m, sig) == Ok(current)
            <==> exists x :: IssuedFor(cfg, s, local, m, x) && x.sig == sig && current == (x.rotation >= local.rotationCount)
  {
    var local := s.processes[p].local;
    assert ProcessInv(cfg, s.processes[p], s.keys);
    forall x | IssuedFor(cfg, s, local, m, x) && x.sig == sig
      ensures VerifyToken(local, s.made, m, sig) == Ok(x.rotation >= local.rotationCount)
    {
      assert IssuedInv(x, s.keys, s.made);
      ValidatesExactly(cfg, local, s.keys, s.made, x);
    }
    if Validates(local, s.made, m, sig) {
      var x := ValidatedIsIssued(cfg, s, local, m, sig);
      assert IssuedFor(cfg, s, local, m, x);
    }
  }

  /** The same for tokens: accepted exactly inside the window, and flagged current exactly when not older. */
  lemma {:induction false} TokensVerifyExactly(cfg: ValidConfig, actions: seq<Action>, p: ProcessID, x: Issued)
    requires var s := Run(cfg, actions); p in s.processes && s.processes[p].ready && x in s.issued
    ensures var s := Run(cfg, actions);
            var local := s.processes[p].local;
            VerifyToken(local, s.made, x.message, x.sig)
            == if InWindow(x.rotation, local.rotationCount, cfg.maxOldKeys)
               then Ok(x.rotation >= local.rotationCount) else Err(())
  {
    var s := Run(cfg, actions);
    RunKeepsInv(cfg, actions);
    assert ProcessInv(cfg, s.processes[p], s.keys) && IssuedInv(x, s.keys, s.made);
    ValidatesExactly(cfg, s.processes[p].local, s.keys, s.made, x);
  }

  /** The row holds exactly the window of its rotation count n, key n signs and key n+1 is next. */
  ghost predicate RowIsWindow(cfg: ValidConfig, row: Row, keys: seq<Key>)
    requires row.Row?
  {
    var n := row.rotationCount;
    && |keys| == n + 2 && Distinct(keys)
    && row.signingKey == keys[n] && row.nextKey == keys[n + 1]
    && HoldsWindow(row.verificationKeys, keys, n, cfg.maxOldKeys)
  }

  lemma InvRowIsWindow(cfg: ValidConfig, s: System)
    requires Inv(cfg, s) && s.row.Row?
    ensures RowIsWindow(cfg, s.row, s.keys)
  {
    WindowExact(s.keys, s.row.rotationCount, cfg.maxOldKeys);
  }

  /** The shared row itself, after every run. */
  lemma {:induction false} RowHoldsWindow(cfg: ValidConfig, actions: seq<Action>)
    requires Run(cfg, actions).row.Row?
    ensures RowIsWindow(cfg, Run(cfg, actions).row, Run(cfg, actions).keys)
  {
    RunKeepsInv(cfg, actions);
    InvRowIsWindow(cfg, Run(cfg, actions));
  }

  // ---- What a refresh does ----

  /** The row knows when it was last rotated. */
  ghost predicate ScheduleInv(cfg: ValidConfig, s: System) {
    s.row.Row? ==>
      && |s.rotatedAt| == s.row.rotationCount + 1
      && s.row.nextRotation == if cfg.rotationDays > 0 then Some(s.rotatedAt[s.row.rotationCount] + 24 * cfg.rotationDays)
                               else None
  }

  lemma {:induction false} RunKeepsSchedule(cfg: ValidConfig, actions: seq<Action>)
    ensures ScheduleInv(cfg, Run(cfg, actions))
  {
    if actions != [] {
      RunKeepsSchedule(cfg, actions[..|actions| - 1]);
    }
  }

  /** The copy of the row a process ends up with; the signing key only if it could be decrypted. */
  ghost predicate InSync(process: Process, row: Row, loadOk: bool)
    requires row.Row?
  {
    && process.ready && process.local.rotationCount == row.rotationCount
    && process.local.verificationKeys == row.verificationKeys
    && process.local.signingKey == if loadOk then Some(row.signingKey) else None
  }

  /**
   A refresh in any run: it rotates exactly when it is forced, or when RotationDays days have passed since the last
   rotation; then the next key signs and a new one is next. Otherwise the row stays. Either way the process gets a copy.
   */
  lemma {:induction false} RefreshRotatesExactly(cfg: ValidConfig, actions: seq<Action>, p: ProcessID, force: bool, newKey: Key,
                                                 loadOk: bool)
    requires Enabled(Run(cfg, actions), Begin(p, force, newKey, loadOk)) && Run(cfg, actions).row.Row?
    ensures var s := Run(cfg, actions);
            var n := s.row.rotationCount;
            var t := Step(cfg, s, Begin(p, force, newKey, loadOk));
            && n < |s.rotatedAt| && t.row.Row?
            && (if force || (cfg.rotationDays > 0 && s.clock >= s.rotatedAt[n] + 24 * cfg.rotationDays)
                then t.row.rotationCount == n + 1 && t.row.signingKey == s.row.nextKey && t.row.nextKey == newKey
                     && t.keys == s.keys + [newKey]
                else t.row == s.row && t.keys == s.keys)
            && p in t.processes && var u := Step(cfg, t, Publish(p)); u.row == t.row && InSync(u.processes[p], t.row, loadOk)
  {
    RunKeepsSchedule(cfg, actions);
  }

  /** The first refresh creates the row and is in sync with it, unless another process was faster: then it adopts its row. */
  lemma FirstRefresh(cfg: ValidConfig, s: System, p: ProcessID, newKey: Key, newKey2: Key, loadOk: bool)
    requires Enabled(s, Insert(p, newKey, newKey2))
    ensures var t := Step(cfg, s, Insert(p, newKey, newKey2));
            if s.row.NoRow? then
              && t.row.Row? && t.row.rotationCount == 0 && t.row.signingKey == newKey && t.row.nextKey == newKey2
              && var u := Step(cfg, t, Publish(p)); u.row == t.row && p in u.processes && InSync(u.processes[p], t.row, true)
            else
              && t.row == s.row
              && var u := Step(cfg, Step(cfg, t, Reread(p, loadOk)), Publish(p));
                 u.row == s.row && p in u.processes && InSync(u.processes[p], s.row, loadOk)
  {
  }

  // ---- How long a signature stays valid ----

  ghost predicate Automatic(actions: seq<Action>) {
    forall i :: 0 <= i < |actions| && actions[i].Begin? ==> !actions[i].force
  }

  function Period(cfg: ValidConfig): nat {
    24 * cfg.rotationDays
  }

  /** Rotations happen at least a period apart, and none before a signature that predates it. */
  ghost predicate TimeInv(cfg: ValidConfig, s: System) {
    && (forall i :: 0 <= i < |s.rotatedAt| ==> s.rotatedAt[i] <= s.clock)
    && (forall i :: 0 < i < |s.rotatedAt| ==> s.rotatedAt[i - 1] + Period(cfg) <= s.rotatedAt[i])
    && (s.row.Row? ==>
          && |s.rotatedAt| == s.row.rotationCount + 1
          && s.row.nextRotation == NextRotation(cfg, s.rotatedAt[s.row.rotationCount])
          && (cfg.rotationDays == 0 ==> s.row.rotationCount == 0))
    && (forall x :: x in s.issued ==> x.at <= s.clock)
    && (forall x :: x in s.issued && x.inSync && x.rotation + 1 < |s.rotatedAt| ==> x.at <= s.rotatedAt[x.rotation + 1])
  }

  lemma NothingIssuedBeforeRow(cfg: ValidConfig, s: System)
    requires Inv(cfg, s) && s.row.NoRow?
    ensures s.issued == {}
  {
    if x :| x in s.issued {
      assert false;
    }
  }

  lemma BeginKeepsTimeInv(cfg: ValidConfig, s: System, p: ProcessID, newKey: Key, loadOk: bool)
    requires TimeInv(cfg, s) && s.row.Row? && p in s.processes
    ensures TimeInv(cfg, BeginWithRow(cfg, s, p, false, newKey, loadOk))
  {
    var s' := BeginWithRow(cfg, s, p, false, newKey, loadOk);
    if RotationDue(s.row, false, s.clock) {
      assert forall i :: 0 <= i < |s.rotatedAt| ==> s'.rotatedAt[i] == s.rotatedAt[i];
      assert s.rotatedAt[|s.rotatedAt| - 1] + Period(cfg) <= s.clock;
    }
  }

  lemma SignKeepsTimeInv(cfg: ValidConfig, s: System, a: Action)
    requires Inv(cfg, s) && TimeInv(cfg, s) && a.SignMessage? && Enabled(s, a)
    ensures TimeInv(cfg, Apply(cfg, s, a))
  {
  }

  lemma StepKeepsTimeInv(cfg: ValidConfig, s: System, a: Action)
    requires Inv(cfg, s) && TimeInv(cfg, s)
    requires a.Begin? ==> !a.force
    ensures TimeInv(cfg, Step(cfg, s, a))
  {
    if Enabled(s, a) {
      match a
      case Begin(p, _, newKey, loadOk) =>
        if s.row.Row? {
          BeginKeepsTimeInv(cfg, s, p, newKey, loadOk);
        }
      case Insert(_, _, _) =>
        if s.row.NoRow? {
          NothingIssuedBeforeRow(cfg, s);
        }
      case SignMessage(_, _, _, _) => SignKeepsTimeInv(cfg, s, a);
      case _ =>
    }
  }

  lemma {:induction false} RunKeepsTimeInv(cfg: ValidConfig, actions: seq<Action>)
    requires Automatic(actions)
    ensures TimeInv(cfg, Run(cfg, actions))
  {
    if actions != [] {
      var before := actions[..|actions| - 1];
      assert Automatic(before) by {
        assert forall i :: 0 <= i < |before| ==> before[i] == actions[i];
      }
      RunKeepsTimeInv(cfg, before);
      RunKeepsInv(cfg, before);
      StepKeepsTimeInv(cfg, Run(cfg, before), actions[|actions| - 1]);
    }
  }

  lemma {:induction false} SpreadInState(cfg: ValidConfig, s: System, i: nat, j: nat)
    requires TimeInv(cfg, s) && i <= j < |s.rotatedAt|
    ensures s.rotatedAt[i] + (j - i) * Period(cfg) <= s.rotatedAt[j]
  {
    if i < j {
      SpreadInState(cfg, s, i, j - 1);
      assert (j - i) * Period(cfg) == (j - 1 - i) * Period(cfg) + Period(cfg);
    }
  }

  /** In every run with automatic rotation only, rotations i and j are at least j - i periods apart. */
  lemma {:induction false} RotationsSpread(cfg: ValidConfig, actions: seq<Action>, i: nat, j: nat)
    requires Automatic(actions) && i <= j < |Run(cfg, actions).rotatedAt|
    ensures Run(cfg, actions).rotatedAt[i] + (j - i) * Period(cfg) <= Run(cfg, actions).rotatedAt[j]
  {
    RunKeepsTimeInv(cfg, actions);
    SpreadInState(cfg, Run(cfg, actions), i, j);
  }

  /** Too few rotations fit into the time since a signature in sync to push its key out of the window. */
  lemma StillInWindow(cfg: ValidConfig, s: System, x: Issued)
    requires TimeInv(cfg, s) && s.row.Row? && x in s.issued && x.inSync
    requires cfg.rotationDays > 0 ==> s.clock < x.at + cfg.maxOldKeys * Period(cfg)
    ensures s.row.rotationCount - cfg.maxOldKeys <= x.rotation
  {
    var a, b := x.rotation, s.row.rotationCount;
    if a < b - cfg.maxOldKeys {
      SpreadInState(cfg, s, a + 1, b);
      MoreSteps(cfg.maxOldKeys, b - a - 1, Period(cfg));
      assert false;
    }
  }

  lemma MoreSteps(few: nat, many: nat, period: nat)
    requires few <= many
    ensures few * period <= many * period
  {
  }

  /**
   With automatic rotation only, a signature by a process in sync with the row still verifies against the row at
   every moment less than MaxOldKeys * RotationDays days later; with RotationDays = 0 it verifies forever.
   */
  lemma {:induction false} SignaturesOutliveRotations(cfg: ValidConfig, actions: seq<Action>, x: Issued)
    requires Automatic(actions)
    requires var s := Run(cfg, actions); x in s.issued && x.inSync && s.row.Row?
    requires cfg.rotationDays > 0 ==> Run(cfg, actions).clock < x.at + cfg.maxOldKeys * Period(cfg)
    ensures var s := Run(cfg, actions); VerifyBytes(Snapshot(s.row, true), s.made, x.message, Encode(x.sig)).0
  {
    var s := Run(cfg, actions);
    RunKeepsInv(cfg, actions);
    RunKeepsTimeInv(cfg, actions);
    assert IssuedInv(x, s.keys, s.made);
    StillInWindow(cfg, s, x);
    RowSnapshotGenuine(cfg, s, true);
    ValidatesExactly(cfg, Snapshot(s.row, true), s.keys, s.made, x);
    SignatureRoundTrip(x.sig);
  }
}
