/**
 The rotating keyring: one shared row of keys, and the process-local copy each instance
 signs and verifies with. Private and public halves of a key pair share one identity;
 signatures are ideal, that is, verification consults the table of signatures ever made.
 */
module KeyringStore {
  import opened Common
  import opened SignatureCodec

  /** Identity of an ECDSA key pair. */
  type Key = nat

  type Message = seq<Byte>

  /** Every signature made so far, with the key and the message it was made for. */
  type Ecdsa = map<(nat, nat), (Key, Message)>

  /** Ideal ecdsa.Verify: true exactly for a signature made with this key over this message. */
  predicate EcdsaVerify(made: Ecdsa, key: Key, p: Message, r: nat, s: nat) {
    (r, s) in made && made[(r, s)] == (key, p)
  }

  datatype Config = Config(rotationDays: int, maxOldKeys: int)

  /** The single row of the keyring table; times are in hours. */
  datatype Row =
    | NoRow
    | Row(verificationKeys: map<Byte, Key>, signingKey: Key, nextKey: Key,
          nextRotation: Option<int>, rotationCount: nat)

  /** The fields an instance signs and verifies with. signingKey is None when it could not be decrypted. */
  datatype Local = Local(verificationKeys: map<Byte, Key>, signingKey: Option<Key>, rotationCount: nat)

  /** What NewDB accepts. */
  type ValidConfig = c: Config | 1 <= c.maxOldKeys <= 254 && 0 <= c.rotationDays <= 9000 witness Config(0, 1)

  /** What NewDB makes of the configured values; None is a validation error. */
  function NormalizeConfig(cfg: Config): (c: Option<ValidConfig>)
    ensures c.Some? <==> (cfg.maxOldKeys == 0 || 1 <= cfg.maxOldKeys <= 254) && 0 <= cfg.rotationDays <= 9000
    ensures c.Some? ==> c.value.rotationDays == cfg.rotationDays
    ensures c.Some? ==> if cfg.maxOldKeys == 0 then c.value.maxOldKeys == 1 else c.value.maxOldKeys == cfg.maxOldKeys
  {
    var maxOldKeys := if cfg.maxOldKeys == 0 then 1 else cfg.maxOldKeys;
    if 1 <= maxOldKeys <= 254 && 0 <= cfg.rotationDays <= 9000
    then Some(Config(cfg.rotationDays, maxOldKeys)) else None
  }

  function NextRotation(cfg: ValidConfig, now: int): Option<int> {
    if cfg.rotationDays > 0 then Some(now + 24 * cfg.rotationDays) else None
  }

  /** The map a rotation to count n leaves: bytes of n-maxOldKeys..n survive, byte(n+1) is the new key. */
  function Rotated(m: map<Byte, Key>, n: int, maxOldKeys: int, newKey: Key): map<Byte, Key> {
    Kept(m, n - maxOldKeys, n + 1)[ToByte(n + 1) := newKey]
  }

  /** The entries of m whose byte belongs to an index in [lo, hi). */
  function Kept(m: map<Byte, Key>, lo: int, hi: int): map<Byte, Key> {
    map b: Byte | b in m && InBytes(b, lo, hi) :: m[b]
  }

  /** Some index in [lo, hi) has b as its byte. */
  predicate InBytes(b: Byte, lo: int, hi: int) {
    lo <= hi - 1 - (hi - 1 - b) % 256 && lo < hi
  }

  lemma InBytesMeaning(b: Byte, lo: int, hi: int)
    ensures InBytes(b, lo, hi) <==> exists i :: lo <= i < hi && ToByte(i) == b
  {
    if InBytes(b, lo, hi) {
      var i := hi - 1 - (hi - 1 - b) % 256;
      assert lo <= i < hi && ToByte(i) == b;
    }
    if i :| lo <= i < hi && ToByte(i) == b {
      SameByteStep(hi - 1, i);
    }
  }

  lemma SameByteStep(top: int, i: int)
    requires i <= top
    ensures (top - ToByte(i)) % 256 == (top - i) % 256 <= top - i
  {
  }

  predicate RotationDue(row: Row, force: bool, now: int)
    requires row.Row?
  {
    force || (row.nextRotation.Some? && row.nextRotation.value <= now)
  }

  function RotateRow(cfg: ValidConfig, row: Row, now: int, newKey: Key): Row
    requires row.Row?
  {
    Row(Rotated(row.verificationKeys, row.rotationCount + 1, cfg.maxOldKeys, newKey),
        row.nextKey, newKey, NextRotation(cfg, now), row.rotationCount + 1)
  }

  /** The row after the refresh transaction of an instance that found the row. */
  function RefreshRow(cfg: ValidConfig, row: Row, force: bool, now: int, newKey: Key): (r: Row)
    requires row.Row?
    ensures r.Row?
  {
    if RotationDue(row, force, now) then RotateRow(cfg, row, now, newKey) else row
  }

  /** `insert ... on conflict do nothing`. */
  function InsertRow(cfg: ValidConfig, row: Row, now: int, signKey: Key, nextKey: Key): (r: Row)
    ensures r.Row? && (row.Row? ==> r == row)
    ensures row.NoRow? ==> r.signingKey == signKey && r.nextKey == nextKey && r.rotationCount == 0
    ensures row.NoRow? ==> r.verificationKeys == map[0 := signKey, 1 := nextKey]
  {
    if row.Row? then row
    else Row(map[0 := signKey, 1 := nextKey], signKey, nextKey, NextRotation(cfg, now), 0)
  }

  /** What an instance keeps of a row it has read; loadOk tells whether the signing key decrypts. */
  function Snapshot(row: Row, loadOk: bool): Local
    requires row.Row?
  {
    Local(row.verificationKeys, if loadOk then Some(row.signingKey) else None, row.rotationCount)
  }

  function SignatureOf(local: Local, r: nat, s: nat): Signature {
    Signature(ToByte(local.rotationCount), r, s)
  }

  /** oldKey, in Verify, and its negation currentKey, in VerifyJWT. */
  predicate IsOldIndex(local: Local, index: Byte) {
    index != ToByte(local.rotationCount) && index != ToByte(local.rotationCount + 1)
  }

  /** The key lookup and signature check that Verify and VerifyJWT share. */
  predicate Validates(local: Local, made: Ecdsa, p: Message, sig: Signature) {
    sig.keyIndex in local.verificationKeys
    && EcdsaVerify(made, local.verificationKeys[sig.keyIndex], p, sig.r, sig.s)
  }

  function VerifyBytes(local: Local, made: Ecdsa, p: Message, bytes: seq<Byte>): (bool, bool) {
    match Decode(bytes)
    case None => (false, false)
    case Some(sig) =>
      if Validates(local, made, p, sig) then (true, IsOldIndex(local, sig.keyIndex)) else (false, false)
  }

  /** VerifyJWT on a token whose header names key index sig.keyIndex: an error, or currentKey. */
  function VerifyToken(local: Local, made: Ecdsa, p: Message, sig: Signature): Result<bool, ()> {
    if Validates(local, made, p, sig) then Ok(!IsOldIndex(local, sig.keyIndex)) else Err(())
  }

  class KeyringTable {
    var row: Row

    constructor ()
      ensures row == NoRow
    {
      row := NoRow;
    }
  }

  class DB {
    const cfg: ValidConfig
    var verificationKeys: map<Byte, Key>
    var signingKey: Option<Key>
    var rotationCount: nat

    ghost function View(): Local
      reads this
    {
      Local(verificationKeys, signingKey, rotationCount)
    }

    constructor (cfg: ValidConfig)
      ensures this.cfg == cfg && View() == Local(map[], None, 0)
    {
      this.cfg := cfg;
      verificationKeys, signingKey, rotationCount := map[], None, 0;
    }

    method RotateVerificationKeys(m: map<Byte, Key>, n: int, newKey: Key) returns (newM: map<Byte, Key>)
      ensures newM == Rotated(m, n, cfg.maxOldKeys, newKey)
    {
      newM := map[];
      var i := n - cfg.maxOldKeys;
      while i <= n
        invariant n - cfg.maxOldKeys <= i <= n + 1
        invariant newM == Kept(m, n - cfg.maxOldKeys, i)
      {
        KeptStep(m, n - cfg.maxOldKeys, i);
        if ToByte(i) in m {
          newM := newM[ToByte(i) := m[ToByte(i)]];
        }
        i := i + 1;
      }
      newM := newM[ToByte(n + 1) := newKey];
    }

    /** commitNewKeyring: insert a first row, or read the one that won the race. */
    method CommitNewKeyring(table: KeyringTable, now: int, signKey: Key, nextKey: Key, loadOk: bool)
      modifies this, table
      ensures table.row == InsertRow(cfg, old(table.row), now, signKey, nextKey)
      ensures View() == if old(table.row).NoRow? then Snapshot(table.row, true) else Snapshot(table.row, loadOk)
    {
      var v := map[ToByte(0) := signKey, ToByte(1) := nextKey];
      var key := Some(signKey);
      var count := 0;
      if table.row.NoRow? {
        table.row := Row(v, signKey, nextKey, NextRotation(cfg, now), 0);
      } else {
        v := table.row.verificationKeys;
        key := if loadOk then Some(table.row.signingKey) else None;
        count := table.row.rotationCount;
      }
      verificationKeys, signingKey, rotationCount := v, key, count;
    }

    /** refreshAndRotateKeys, with the freshly generated keys and the decryption outcome as inputs. */
    method RefreshAndRotateKeys(table: KeyringTable, force: bool, now: int, newKey: Key, newKey2: Key, loadOk: bool)
      modifies this, table
      ensures old(table.row).NoRow? ==>
                table.row == InsertRow(cfg, NoRow, now, newKey, newKey2) && View() == Snapshot(table.row, true)
      ensures old(table.row).Row? ==>
                table.row == RefreshRow(cfg, old(table.row), force, now, newKey) && View() == Snapshot(table.row, loadOk)
    {
      if table.row.NoRow? {
        CommitNewKeyring(table, now, newKey, newKey2, loadOk);
        return;
      }
      var keys, sign, count := table.row.verificationKeys, table.row.signingKey, table.row.rotationCount;
      if force || (table.row.nextRotation.Some? && table.row.nextRotation.value <= now) {
        sign := table.row.nextKey;
        count := count + 1;
        keys := RotateVerificationKeys(keys, count, newKey);
        table.row := Row(keys, sign, newKey, NextRotation(cfg, now), count);
      }
      verificationKeys := keys;
      signingKey := if loadOk then Some(sign) else None;
      rotationCount := count;
    }

    /** Sign, given the numbers (r, s) that ECDSA produced. */
    method Sign(r: nat, s: nat) returns (res: Result<seq<Byte>, string>)
      ensures signingKey.None? ==> res.Err?
      ensures signingKey.Some? ==> res == Ok(Encode(SignatureOf(View(), r, s)))
    {
      if signingKey.None? {
        return Err("signing key unavailable");
      }
      res := Ok(Encode(Signature(ToByte(rotationCount % 256), r, s)));
    }

    method Verify(made: Ecdsa, p: Message, signature: seq<Byte>) returns (valid: bool, oldKey: bool)
      ensures (valid, oldKey) == VerifyBytes(View(), made, p, signature)
    {
      valid, oldKey := false, false;
      var sig := Decode(signature);
      if sig.None? || sig.value.keyIndex !in verificationKeys {
        return;
      }
      var key := verificationKeys[sig.value.keyIndex];
      valid := EcdsaVerify(made, key, p, sig.value.r, sig.value.s);
      if valid {
        oldKey := sig.value.keyIndex != ToByte(rotationCount) && sig.value.keyIndex != ToByte(rotationCount + 1);
      }
    }
  }

  /** Growing the scanned range by one index adds exactly that index's byte. */
  lemma ExtendBytes(lo: int, hi: int)
    requires lo <= hi
    ensures forall b: Byte :: InBytes(b, lo, hi + 1) <==> InBytes(b, lo, hi) || b == ToByte(hi)
  {
    forall b: Byte
      ensures InBytes(b, lo, hi + 1) <==> InBytes(b, lo, hi) || b == ToByte(hi)
    {
      InBytesMeaning(b, lo, hi);
      InBytesMeaning(b, lo, hi + 1);
      if InBytes(b, lo, hi) {
        var i :| lo <= i < hi && ToByte(i) == b;
        assert lo <= i < hi + 1;
      }
    }
  }

  lemma KeptStep(m: map<Byte, Key>, lo: int, hi: int)
    requires lo <= hi
    ensures Kept(m, lo, hi + 1)
         == if ToByte(hi) in m then Kept(m, lo, hi)[ToByte(hi) := m[ToByte(hi)]] else Kept(m, lo, hi)
  {
    ExtendBytes(lo, hi);
  }
}
