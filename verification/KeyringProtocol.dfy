/**
 Any number of processes, each with a possibly stale copy of the shared keyring row. A run is a
 list of actions; one that is not enabled changes nothing. Database transactions are atomic, and
 the gap between committing one and publishing its result to the process is a step of its own.
 */
module KeyringProtocol {
  import opened Common
  import opened SignatureCodec
  import opened KeyringStore

  type ProcessID = nat

  /** Where a process is inside refreshAndRotateKeys. */
  datatype Phase =
    | Idle
    | SawNoRow                // its select found no row; about to insert
    | LostRace                // its insert conflicted; about to read the winner's row
    | Fetched(local: Local)   // transaction over; about to publish under the lock

  datatype Process = Process(local: Local, ready: bool, phase: Phase)

  /** A signature handed out by some process, with what it knew when it signed. */
  datatype Issued = Issued(message: Message, sig: Signature, rotation: nat, at: int, inSync: bool)

  datatype System = System(
    row: Row,
    processes: map<ProcessID, Process>,
    keys: seq<Key>,          // every key ever stored in the row, oldest first
    generated: set<Key>,     // every key ever generated, stored or not
    rotatedAt: seq<int>,     // time of creation and of each rotation
    made: Ecdsa,
    issued: set<Issued>,
    clock: int)

  datatype Action =
    | Tick(hours: nat)
    | Start(p: ProcessID)
    | Begin(p: ProcessID, force: bool, newKey: Key, loadOk: bool)
    | Insert(p: ProcessID, newKey: Key, newKey2: Key)
    | Reread(p: ProcessID, loadOk: bool)
    | Publish(p: ProcessID)
    | Abort(p: ProcessID)
    | SignMessage(p: ProcessID, message: Message, r: nat, s: nat)

  function Init(): System {
    System(NoRow, map[], [], {}, [], map[], {}, 0)
  }

  predicate Enabled(s: System, a: Action) {
    match a
    case Tick(_) => true
    case Start(p) => p !in s.processes
    case Begin(p, _, newKey, _) => p in s.processes && s.processes[p].phase.Idle? && newKey !in s.generated
    case Insert(p, newKey, newKey2) =>
      p in s.processes && s.processes[p].phase.SawNoRow?
      && newKey !in s.generated && newKey2 !in s.generated && newKey != newKey2
    case Reread(p, _) => p in s.processes && s.processes[p].phase.LostRace? && s.row.Row?
    case Publish(p) => p in s.processes && s.processes[p].phase.Fetched?
    case Abort(p) => p in s.processes
    case SignMessage(p, _, r, t) =>
      p in s.processes && s.processes[p].ready && s.processes[p].local.signingKey.Some?
      && (r, t) !in s.made && r < TWO_POW_224 && t < TWO_POW_224
  }

  function SetPhase(s: System, p: ProcessID, phase: Phase): map<ProcessID, Process>
    requires p in s.processes
  {
    s.processes[p := s.processes[p].(phase := phase)]
  }

  function Apply(cfg: ValidConfig, s: System, a: Action): System
    requires Enabled(s, a)
  {
    match a
    case Tick(hours) => s.(clock := s.clock + hours)
    case Start(p) => s.(processes := s.processes[p := Process(Local(map[], None, 0), false, Idle)])
    case Begin(p, force, newKey, loadOk) =>
      if s.row.NoRow? then s.(processes := SetPhase(s, p, SawNoRow))
      else BeginWithRow(cfg, s, p, force, newKey, loadOk)
    case Insert(p, newKey, newKey2) =>
      if s.row.Row?
      then s.(generated := s.generated + {newKey, newKey2}, processes := SetPhase(s, p, LostRace))
      else
        var row := InsertRow(cfg, s.row, s.clock, newKey, newKey2);
        s.(row := row, keys := [newKey, newKey2], generated := s.generated + {newKey, newKey2},
           rotatedAt := [s.clock], processes := SetPhase(s, p, Fetched(Snapshot(row, true))))
    case Reread(p, loadOk) => s.(processes := SetPhase(s, p, Fetched(Snapshot(s.row, loadOk))))
    case Publish(p) => s.(processes := s.processes[p := Process(s.processes[p].phase.local, true, Idle)])
    case Abort(p) => s.(processes := SetPhase(s, p, Idle))
    case SignMessage(p, message, r, t) =>
      var local := s.processes[p].local;
      s.(made := s.made[(r, t) := (local.signingKey.value, message)],
         issued := s.issued + {Issued(message, SignatureOf(local, r, t), local.rotationCount, s.clock,
                                      s.row.Row? && s.row.rotationCount == local.rotationCount)})
  }

  /** The refresh transaction when it finds the row: rotate it if due, and remember what was read. */
  function BeginWithRow(cfg: ValidConfig, s: System, p: ProcessID, force: bool, newKey: Key, loadOk: bool): System
    requires p in s.processes && s.row.Row?
  {
    var row := RefreshRow(cfg, s.row, force, s.clock, newKey);
    var s1 := if RotationDue(s.row, force, s.clock)
              then s.(row := row, keys := s.keys + [newKey], generated := s.generated + {newKey},
                      rotatedAt := s.rotatedAt + [s.clock])
              else s;
    s1.(processes := SetPhase(s, p, Fetched(Snapshot(row, loadOk))))
  }

  function Step(cfg: ValidConfig, s: System, a: Action): System {
    if Enabled(s, a) then Apply(cfg, s, a) else s
  }

  function Run(cfg: ValidConfig, actions: seq<Action>): System {
    if actions == [] then Init()
    else Step(cfg, Run(cfg, actions[..|actions| - 1]), actions[|actions| - 1])
  }

  // ---- The byte-indexed window ----

  /** The highest index up to n+1 whose byte is b. */
  function IndexFor(b: Byte, n: nat): int {
    n + 1 - (n + 1 - b) % 256
  }

  function Oldest(n: nat, maxOldKeys: int): nat {
    if n < maxOldKeys then 0 else n - maxOldKeys
  }

  /** {byte(i) -> keys[i] : max(0, n-maxOldKeys) <= i <= n+1}. */
  function Window(keys: seq<Key>, n: nat, maxOldKeys: nat): map<Byte, Key>
    requires n + 2 <= |keys|
  {
    map b: Byte | 0 <= b < 256 && Oldest(n, maxOldKeys) <= IndexFor(b, n) :: keys[IndexFor(b, n)]
  }

  lemma IndexForExact(b: Byte, n: nat, i: int)
    requires n + 1 - 255 <= i <= n + 1
    ensures i == IndexFor(b, n) <==> ToByte(i) == b
  {
  }

  lemma IndexForByte(b: Byte, n: nat)
    ensures ToByte(IndexFor(b, n)) == b && n + 1 - 255 <= IndexFor(b, n) <= n + 1
  {
  }

  /** Every index of the window is found under its byte, and nothing else is in m. */
  ghost predicate HoldsWindow(m: map<Byte, Key>, keys: seq<Key>, n: nat, maxOldKeys: int)
    requires n + 2 <= |keys|
  {
    && (forall i :: Oldest(n, maxOldKeys) <= i <= n + 1 ==> ToByte(i) in m && m[ToByte(i)] == keys[i])
    && (forall b: Byte :: b in m ==> exists i :: Oldest(n, maxOldKeys) <= i <= n + 1 && ToByte(i) == b)
  }

  /** Window says what its comment says. */
  lemma WindowExact(keys: seq<Key>, n: nat, maxOldKeys: nat)
    requires n + 2 <= |keys| && maxOldKeys <= 254
    ensures HoldsWindow(Window(keys, n, maxOldKeys), keys, n, maxOldKeys)
  {
    forall i | Oldest(n, maxOldKeys) <= i <= n + 1
      ensures ToByte(i) in Window(keys, n, maxOldKeys) && Window(keys, n, maxOldKeys)[ToByte(i)] == keys[i]
    {
      IndexForExact(ToByte(i), n, i);
    }
    forall b: Byte | b in Window(keys, n, maxOldKeys)
      ensures exists i :: Oldest(n, maxOldKeys) <= i <= n + 1 && ToByte(i) == b
    {
      IndexForByte(b, n);
    }
  }

  /** Later keys do not disturb an earlier window. */
  lemma WindowPrefix(keys: seq<Key>, more: seq<Key>, n: nat, maxOldKeys: nat)
    requires n + 2 <= |keys|
    ensures Window(keys + more, n, maxOldKeys) == Window(keys, n, maxOldKeys)
  {
  }

  /** Rotating the window of n keeps exactly the window of n+1, despite wrap-around and negative indices. */
  lemma RotatedWindow(keys: seq<Key>, n: nat, maxOldKeys: nat)
    requires n + 3 <= |keys| && maxOldKeys <= 254
    ensures Rotated(Window(keys, n, maxOldKeys), n + 1, maxOldKeys, keys[n + 2]) == Window(keys, n + 1, maxOldKeys)
  {
    var before, after := Window(keys, n, maxOldKeys), Window(keys, n + 1, maxOldKeys);
    var rotated := Rotated(before, n + 1, maxOldKeys, keys[n + 2]);
    forall b: Byte
      ensures b in rotated <==> b in after
      ensures b in after ==> rotated[b] == after[b]
    {
      RotatedByte(b, n, maxOldKeys);
    }
  }

  /** The arithmetic of one rotation, byte by byte. */
  lemma RotatedByte(b: Byte, n: nat, maxOldKeys: nat)
    requires maxOldKeys <= 254
    ensures b == ToByte(n + 2) ==> IndexFor(b, n + 1) == n + 2
    ensures b != ToByte(n + 2) ==> IndexFor(b, n + 1) == IndexFor(b, n)
    ensures b != ToByte(n + 2) ==>
              (Oldest(n + 1, maxOldKeys) <= IndexFor(b, n + 1) <==>
               Oldest(n, maxOldKeys) <= IndexFor(b, n) && InBytes(b, n + 1 - maxOldKeys, n + 2))
  {
    IndexForByte(b, n + 1);
    IndexForByte(b, n);
    if b == ToByte(n + 2) {
      IndexForExact(b, n + 1, n + 2);
    } else {
      IndexForExact(b, n, IndexFor(b, n + 1));
    }
  }

  /** The map after n rotations, built from the first one by the rotation code alone. */
  function Built(keys: seq<Key>, n: nat, maxOldKeys: nat): map<Byte, Key>
    requires n + 2 <= |keys|
  {
    if n == 0 then map[0 := keys[0], 1 := keys[1]]
    else Rotated(Built(keys, n - 1, maxOldKeys), n, maxOldKeys, keys[n + 1])
  }

  lemma FirstWindow(keys: seq<Key>, maxOldKeys: nat)
    requires 2 <= |keys|
    ensures Window(keys, 0, maxOldKeys) == map[0 := keys[0], 1 := keys[1]]
  {
    forall b: Byte
      ensures b in Window(keys, 0, maxOldKeys) <==> b == 0 || b == 1
      ensures b in Window(keys, 0, maxOldKeys) ==> Window(keys, 0, maxOldKeys)[b] == keys[b]
    {
      FirstIndex(b);
    }
  }

  lemma FirstIndex(b: Byte)
    ensures IndexFor(b, 0) == if b <= 1 then b else b - 256
  {
  }

  lemma {:induction false} BuiltIsWindow(keys: seq<Key>, n: nat, maxOldKeys: nat)
    requires n + 2 <= |keys| && maxOldKeys <= 254
    ensures Built(keys, n, maxOldKeys) == Window(keys, n, maxOldKeys)
  {
    if n == 0 {
      FirstWindow(keys, maxOldKeys);
    } else {
      BuiltIsWindow(keys, n - 1, maxOldKeys);
      RotatedWindow(keys, n - 1, maxOldKeys);
    }
  }

  /** After every number of rotations, every retained index is found under its byte. */
  ghost predicate NeverLosesAKey(maxOldKeys: nat) {
    forall keys: seq<Key>, n: nat, i: nat ::
      Distinct(keys) && n + 2 <= |keys| && Oldest(n, maxOldKeys) <= i <= n + 1 ==>
        ToByte(i) in Built(keys, n, maxOldKeys) && Built(keys, n, maxOldKeys)[ToByte(i)] == keys[i]
  }

  /** The configuration bound is exact: one byte of key index allows 254 old keys and not one more. */
  lemma MaxOldKeysBoundIsExact(maxOldKeys: nat)
    ensures NeverLosesAKey(maxOldKeys) <==> maxOldKeys <= 254
  {
    if maxOldKeys <= 254 {
      forall keys: seq<Key>, n: nat, i: nat
        | Distinct(keys) && n + 2 <= |keys| && Oldest(n, maxOldKeys) <= i <= n + 1
        ensures ToByte(i) in Built(keys, n, maxOldKeys) && Built(keys, n, maxOldKeys)[ToByte(i)] == keys[i]
      {
        BuiltIsWindow(keys, n, maxOldKeys);
        WindowExact(keys, n, maxOldKeys);
      }
    } else {
      var keys: seq<Key> := seq(257, i => i);
      assert Distinct(keys) && Oldest(255, maxOldKeys) == 0;
      assert ToByte(256) == ToByte(0);
      assert Built(keys, 255, maxOldKeys)[ToByte(0)] == keys[256] != keys[0];
    }
  }
}
