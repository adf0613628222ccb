/**
 The API key policy cache: two bounded LRU caches, one of parsed policies and one of keys known to be invalid, in
 front of the database. The question is when an answer from the caches is the answer the database would give.
 */
module PolicyCache {
  import opened Common

  type KeyID = string
  type Policy = string

  // ---- The LRU cache ----

  /** Keys from most to least recently used, and their values; a max of 0 means no bound. */
  datatype LRU<V> = LRU(max: int, order: seq<KeyID>, values: map<KeyID, V>)

  predicate WellFormed<V>(c: LRU<V>) {
    && Distinct(c.order)
    && (forall k :: k in c.order ==> k in c.values)
    && (forall k :: k in c.values ==> k in c.order)
    && (c.max > 0 ==> |c.order| <= c.max)
    && (c.max < 0 ==> c.order == [])
  }

  lemma {:induction false} WithoutRemoves(s: seq<KeyID>, k: KeyID)
    requires Distinct(s)
    ensures Distinct(Without(s, k)) && k !in Without(s, k)
    ensures forall x :: x != k ==> (x in Without(s, k) <==> x in s)
    ensures |Without(s, k)| == if k in s then |s| - 1 else |s|
  {
    if s != [] {
      WithoutRemoves(s[1..], k);
      assert s == [s[0]] + s[1..];
      assert s[0] !in s[1..];
      if s[0] != k {
        assert s[0] !in Without(s[1..], k);
      }
    }
  }

  function Empty<V>(max: int): LRU<V> {
    LRU(max, [], map[])
  }

  /** A hit makes its key the most recently used one. */
  function Touch<V>(c: LRU<V>, k: KeyID): LRU<V> {
    if k in c.values then c.(order := [k] + Without(c.order, k)) else c
  }

  /** A new key that takes the cache over its bound drops the least recently used one. */
  function Add<V>(c: LRU<V>, k: KeyID, v: V): LRU<V> {
    var order := [k] + Without(c.order, k);
    var values := c.values[k := v];
    if k !in c.values && c.max != 0 && |order| > c.max then
      var last := order[|order| - 1];
      LRU(c.max, order[..|order| - 1], values - {last})
    else
      LRU(c.max, order, values)
  }

  function Remove<V>(c: LRU<V>, k: KeyID): LRU<V> {
    LRU(c.max, Without(c.order, k), c.values - {k})
  }

  lemma FrontIsDistinct(k: KeyID, s: seq<KeyID>)
    requires Distinct(s) && k !in s
    ensures Distinct([k] + s)
  {
    var t := [k] + s;
    forall i, j | 0 <= i < j < |t|
      ensures t[i] != t[j]
    {
      assert t[j] == s[j - 1];
      assert i > 0 ==> t[i] == s[i - 1];
    }
  }

  lemma TouchKeeps<V>(c: LRU<V>, k: KeyID)
    requires WellFormed(c)
    ensures WellFormed(Touch(c, k)) && Touch(c, k).values == c.values && Touch(c, k).max == c.max
  {
    WithoutRemoves(c.order, k);
    FrontIsDistinct(k, Without(c.order, k));
  }

  lemma RemoveKeeps<V>(c: LRU<V>, k: KeyID)
    requires WellFormed(c)
    ensures WellFormed(Remove(c, k)) && Remove(c, k).max == c.max
  {
    WithoutRemoves(c.order, k);
  }

  lemma DropLast(s: seq<KeyID>)
    requires Distinct(s) && s != []
    ensures Distinct(s[..|s| - 1])
    ensures forall x :: x in s[..|s| - 1] <==> x in s && x != s[|s| - 1]
  {
    var init, last := s[..|s| - 1], s[|s| - 1];
    forall x
      ensures x in init <==> x in s && x != last
    {
      if x in s && x != last {
        var i :| 0 <= i < |s| && s[i] == x;
        assert init[i] == x;
      }
    }
  }

  /** The added key is present under any bound but a negative one; nothing else appears, and values do not change. */
  lemma AddKeeps<V>(c: LRU<V>, k: KeyID, v: V)
    requires WellFormed(c)
    ensures WellFormed(Add(c, k, v)) && Add(c, k, v).max == c.max
    ensures Add(c, k, v).values.Keys <= c.values.Keys + {k}
    ensures forall x :: x in Add(c, k, v).values ==> Add(c, k, v).values[x] == if x == k then v else c.values[x]
    ensures c.max >= 0 ==> k in Add(c, k, v).values
  {
    WithoutRemoves(c.order, k);
    FrontIsDistinct(k, Without(c.order, k));
    var order := [k] + Without(c.order, k);
    assert forall x :: x in order <==> x == k || x in c.order;
    if k !in c.values && c.max != 0 && |order| > c.max {
      DropLast(order);
      assert c.max > 0 ==> order[..|order| - 1][0] == k;
    }
  }

  /** The position of the last use of k in a history of uses; -1 when it was never used. */
  function LastUse(uses: seq<KeyID>, k: KeyID): int {
    if uses == [] then -1
    else if uses[|uses| - 1] == k then |uses| - 1
    else LastUse(uses[..|uses| - 1], k)
  }

  ghost predicate ByRecency(order: seq<KeyID>, uses: seq<KeyID>) {
    forall i, j :: 0 <= i < j < |order| ==> LastUse(uses, order[i]) > LastUse(uses, order[j])
  }

  lemma {:induction false} WithoutKeepsRecency(s: seq<KeyID>, k: KeyID, uses: seq<KeyID>)
    requires Distinct(s) && ByRecency(s, uses)
    ensures ByRecency(Without(s, k), uses)
  {
    if s != [] {
      var rest := Without(s[1..], k);
      WithoutRemoves(s[1..], k);
      WithoutKeepsRecency(s[1..], k, uses);
      if s[0] != k {
        forall j | 0 < j < |[s[0]] + rest|
          ensures LastUse(uses, s[0]) > LastUse(uses, ([s[0]] + rest)[j])
        {
          assert rest[j - 1] in s[1..];
        }
      }
    }
  }

  lemma {:induction false} LastUseIsPast(uses: seq<KeyID>, k: KeyID)
    ensures -1 <= LastUse(uses, k) < |uses|
  {
    if uses != [] {
      LastUseIsPast(uses[..|uses| - 1], k);
    }
  }

  lemma UseComesFirst(s: seq<KeyID>, k: KeyID, uses: seq<KeyID>)
    requires k !in s && ByRecency(s, uses)
    ensures ByRecency([k] + s, uses + [k])
  {
    assert (uses + [k])[..|uses|] == uses;
    forall x | x != k
      ensures LastUse(uses + [k], x) == LastUse(uses, x) < LastUse(uses + [k], k)
    {
      LastUseIsPast(uses, x);
    }
    var t := [k] + s;
    forall i, j | 0 <= i < j < |t|
      ensures LastUse(uses + [k], t[i]) > LastUse(uses + [k], t[j])
    {
      assert t[j] == s[j - 1] && t[j] != k;
      assert i > 0 ==> t[i] == s[i - 1] && t[i] != k;
    }
  }

  /** The entries stay ordered by their last use. */
  lemma HitsKeepRecency<V>(c: LRU<V>, k: KeyID, uses: seq<KeyID>)
    requires WellFormed(c) && ByRecency(c.order, uses)
    ensures ByRecency(Touch(c, k).order, if k in c.values then uses + [k] else uses)
    ensures ByRecency(Remove(c, k).order, uses)
  {
    WithoutRemoves(c.order, k);
    WithoutKeepsRecency(c.order, k, uses);
    UseComesFirst(Without(c.order, k), k, uses);
  }

  lemma AddKeepsRecency<V>(c: LRU<V>, k: KeyID, v: V, uses: seq<KeyID>)
    requires WellFormed(c) && ByRecency(c.order, uses)
    ensures ByRecency(Add(c, k, v).order, uses + [k])
  {
    WithoutRemoves(c.order, k);
    WithoutKeepsRecency(c.order, k, uses);
    UseComesFirst(Without(c.order, k), k, uses);
  }

  /** Using a key that is not in the order leaves the order of the others. */
  lemma OtherUse(order: seq<KeyID>, k: KeyID, uses: seq<KeyID>)
    requires ByRecency(order, uses) && k !in order
    ensures ByRecency(order, uses + [k])
  {
    assert (uses + [k])[..|uses|] == uses;
    forall x | x in order
      ensures LastUse(uses + [k], x) == LastUse(uses, x)
    {
    }
  }

  lemma LastIsOldest(order: seq<KeyID>, uses: seq<KeyID>, y: KeyID)
    requires ByRecency(order, uses) && y in order && y != order[|order| - 1]
    ensures LastUse(uses, order[|order| - 1]) < LastUse(uses, y)
  {
    var i :| 0 <= i < |order| && order[i] == y;
  }

  /** The values after adding a new key to a cache that is not empty. */
  lemma NewKeyValues<V>(c: LRU<V>, k: KeyID, v: V)
    requires k !in c.order && k !in c.values && c.order != []
    ensures Add(c, k, v).values
         == if c.max != 0 && |c.order| + 1 > c.max then c.values[k := v] - {c.order[|c.order| - 1]} else c.values[k := v]
  {
    WithoutAbsent(c.order, k);
    assert ([k] + c.order)[|c.order|] == c.order[|c.order| - 1];
  }

  lemma DroppedByAdd<V>(c: LRU<V>, k: KeyID, v: V)
    requires WellFormed(c) && c.order != []
    ensures var after := Add(c, k, v).values.Keys;
            && c.values.Keys - {c.order[|c.order| - 1]} <= after
            && (c.max >= 0 && (c.max == 0 || k in c.values || |c.order| < c.max) ==> c.values.Keys <= after)
  {
    if k in c.values {
      assert Add(c, k, v).values == c.values[k := v];
    } else {
      NewKeyValues(c, k, v);
    }
  }

  /** Add never drops more than one key, only from a full cache, and it drops the one used longest ago. */
  lemma AddDropsLeastRecentlyUsed<V>(c: LRU<V>, k: KeyID, v: V, uses: seq<KeyID>)
    requires WellFormed(c) && ByRecency(c.order, uses)
    ensures forall x, y :: x in c.values && x !in Add(c, k, v).values && y in c.values && y != x ==>
                             y in Add(c, k, v).values && LastUse(uses, x) < LastUse(uses, y)
    ensures c.max >= 0 && (c.max == 0 || k in c.values || |c.order| < c.max) ==>
              c.values.Keys <= Add(c, k, v).values.Keys
  {
    if c.order != [] {
      DroppedByAdd(c, k, v);
      forall x, y | x in c.values && x !in Add(c, k, v).values && y in c.values && y != x
        ensures LastUse(uses, x) < LastUse(uses, y)
      {
        LastIsOldest(c.order, uses, y);
      }
    }
  }

  lemma {:induction false} WithoutAbsent(s: seq<KeyID>, k: KeyID)
    requires k !in s
    ensures Without(s, k) == s
  {
    if s != [] {
      WithoutAbsent(s[1..], k);
    }
  }

  // ---- The keys in the database ----

  /** The rows of gql_api_keys: those neither deleted nor expired are valid; None is a policy that does not parse. */
  datatype Keys = Keys(valid: set<KeyID>, policies: map<KeyID, Option<Policy>>)

  datatype Answer = Found(policy: Policy) | NotValid | Failed

  /** _fetchPolicyInfo. */
  function Fill(db: Keys, k: KeyID, fault: bool): Answer {
    if fault then Failed
    else if k !in db.valid || k !in db.policies then NotValid
    else if db.policies[k].None? then Failed
    else Found(db.policies[k].value)
  }

  /** _verifyPolicyID; None is an error. */
  function Verify(db: Keys, k: KeyID, fault: bool): Option<bool> {
    if fault then None else Some(k in db.valid && k in db.policies)
  }

  // ---- The cache ----

  datatype Cache = Cache(lru: LRU<Policy>, neg: LRU<()>)

  function NewCache(max: int): Cache {
    Cache(Empty(max), Empty(max))
  }

  function Reject(c: Cache, k: KeyID): Cache {
    Cache(Remove(c.lru, k), Add(c.neg, k, ()))
  }

  /** The answer of Get; each database call may fail on its own. */
  function Answered(c: Cache, db: Keys, k: KeyID, verifyFault: bool, fillFault: bool): Answer {
    if k in c.neg.values then NotValid
    else if k in c.lru.values then
      match Verify(db, k, verifyFault)
      case None => Failed
      case Some(ok) => if ok then Found(c.lru.values[k]) else NotValid
    else Fill(db, k, fillFault)
  }

  /** The caches after Get. */
  function AfterGet(c: Cache, db: Keys, k: KeyID, verifyFault: bool, fillFault: bool): Cache {
    if k in c.neg.values then c.(neg := Touch(c.neg, k))
    else if k in c.lru.values then
      var touched := c.(lru := Touch(c.lru, k));
      if Verify(db, k, verifyFault) == Some(false) then Reject(touched, k) else touched
    else
      match Fill(db, k, fillFault)
      case Failed => c
      case NotValid => c.(neg := Add(c.neg, k, ()))
      case Found(p) => c.(lru := Add(c.lru, k, p))
  }

  /** polCache, with its mutex left out: every call holds it from start to end. */
  class PolCache {
    var lru: LRU<Policy>
    var neg: LRU<()>

    ghost function Snapshot(): Cache
      reads this
    {
      Cache(lru, neg)
    }

    constructor (maxSize: int)
      ensures Snapshot() == NewCache(maxSize)
    {
      lru := Empty(maxSize);
      neg := Empty(maxSize);
    }

    method Revoke(key: KeyID)
      modifies this
      ensures Snapshot() == Reject(old(Snapshot()), key)
    {
      neg := Add(neg, key, ());
      lru := Remove(lru, key);
    }

    /** ok is false and value None in every case but a valid key; an invalid key is not an error. */
    method Get(db: Keys, key: KeyID, verifyFault: bool, fillFault: bool)
      returns (value: Option<Policy>, ok: bool, err: bool)
      modifies this
      ensures Snapshot() == AfterGet(old(Snapshot()), db, key, verifyFault, fillFault)
      ensures match Answered(old(Snapshot()), db, key, verifyFault, fillFault)
              case Found(p) => value == Some(p) && ok && !err
              case NotValid => value == None && !ok && !err
              case Failed => value == None && !ok && err
    {
      if key in neg.values {
        neg := Touch(neg, key);
        return None, false, false;
      }
      if key in lru.values {
        var v := lru.values[key];
        lru := Touch(lru, key);
        var isValid := Verify(db, key, verifyFault);
        if isValid == None {
          return None, false, true;
        }
        if !isValid.value {
          neg := Add(neg, key, ());
          lru := Remove(lru, key);
          return None, false, false;
        }
        return Some(v), true, false;
      }
      var filled := Fill(db, key, fillFault);
      match filled {
        case Failed =>
          return None, false, true;
        case NotValid =>
          neg := Add(neg, key, ());
          return None, false, false;
        case Found(p) =>
          lru := Add(lru, key, p);
          return Some(p), true, false;
      }
    }
  }

  // ---- Runs ----

  /** requests lists the keys the cache was given so far, by Get or Revoke, oldest first. */
  datatype System = System(db: Keys, cache: Cache, requests: seq<KeyID>)

  datatype Action =
    | Issue(key: KeyID, policy: Option<Policy>)
    | Invalidate(key: KeyID)                     // deleted or expired
    | Get(key: KeyID, verifyFault: bool, fillFault: bool)
    | Revoke(key: KeyID)

  /** A key is issued under a new random ID, nobody has asked for it yet; only invalid keys are revoked. */
  predicate Enabled(s: System, a: Action) {
    match a
    case Issue(k, _) => k !in s.requests && k !in s.db.policies
    case Revoke(k) => k !in s.db.valid
    case _ => true
  }

  function Step(s: System, a: Action): System
    requires Enabled(s, a)
  {
    match a
    case Issue(k, p) => s.(db := Keys(s.db.valid + {k}, s.db.policies[k := p]))
    case Invalidate(k) => s.(db := s.db.(valid := s.db.valid - {k}))
    case Get(k, vf, ff) => Requested(s, AfterGet(s.cache, s.db, k, vf, ff), k)
    case Revoke(k) => Requested(s, Reject(s.cache, k), k)
  }

  ghost predicate Run(s: System, actions: seq<Action>, t: System)
    decreases |actions|
  {
    if actions == [] then s == t
    else Enabled(s, actions[0]) && Run(Step(s, actions[0]), actions[1..], t)
  }

  function Initial(max: int): System {
    System(Keys({}, map[]), NewCache(max), [])
  }

  /**
   The caches agree with the database: policies are those issued, and only invalid keys are rejected. Both are ordered
   by the last request for their keys.
   */
  ghost predicate Inv(s: System, max: int) {
    && WellFormed(s.cache.lru) && WellFormed(s.cache.neg)
    && s.cache.lru.max == max && s.cache.neg.max == max
    && s.cache.lru.values.Keys !! s.cache.neg.values.Keys
    && s.cache.neg.values.Keys !! s.db.valid
    && (forall k :: k in s.cache.neg.values ==> k in s.requests)
    && ByRecency(s.cache.lru.order, s.requests) && ByRecency(s.cache.neg.order, s.requests)
    && s.db.valid <= s.db.policies.Keys
    && (forall k :: k in s.cache.lru.values ==> k in s.db.policies && s.db.policies[k] == Some(s.cache.lru.values[k]))
  }

  /** The system after a request that leaves the cache as given. */
  function Requested(s: System, cache: Cache, k: KeyID): System {
    s.(cache := cache, requests := s.requests + [k])
  }

  lemma RemoveKeepsRecency<V>(c: LRU<V>, k: KeyID, uses: seq<KeyID>)
    requires WellFormed(c) && ByRecency(c.order, uses)
    ensures ByRecency(Remove(c, k).order, uses + [k])
  {
    HitsKeepRecency(c, k, uses);
    WithoutRemoves(c.order, k);
    OtherUse(Without(c.order, k), k, uses);
  }

  lemma RejectKeepsInv(s: System, k: KeyID, max: int)
    requires Inv(s, max) && k !in s.db.valid
    ensures Inv(Requested(s, Reject(s.cache, k), k), max)
  {
    RemoveKeeps(s.cache.lru, k);
    RemoveKeepsRecency(s.cache.lru, k, s.requests);
    AddKeeps(s.cache.neg, k, ());
    AddKeepsRecency(s.cache.neg, k, (), s.requests);
  }

  lemma HitKeepsInv(s: System, k: KeyID, max: int)
    requires Inv(s, max)
    ensures k in s.cache.neg.values ==> Inv(Requested(s, s.cache.(neg := Touch(s.cache.neg, k)), k), max)
    ensures k in s.cache.lru.values ==> Inv(Requested(s, s.cache.(lru := Touch(s.cache.lru, k)), k), max)
  {
    if k in s.cache.neg.values {
      TouchKeeps(s.cache.neg, k);
      HitsKeepRecency(s.cache.neg, k, s.requests);
      OtherUse(s.cache.lru.order, k, s.requests);
    }
    if k in s.cache.lru.values {
      TouchKeeps(s.cache.lru, k);
      HitsKeepRecency(s.cache.lru, k, s.requests);
      OtherUse(s.cache.neg.order, k, s.requests);
    }
  }

  lemma MissKeepsInv(s: System, k: KeyID, ff: bool, max: int)
    requires Inv(s, max) && k !in s.cache.neg.values && k !in s.cache.lru.values
    ensures Inv(Requested(s, AfterGet(s.cache, s.db, k, false, ff), k), max)
  {
    OtherUse(s.cache.lru.order, k, s.requests);
    OtherUse(s.cache.neg.order, k, s.requests);
    match Fill(s.db, k, ff) {
      case Failed =>
      case NotValid =>
        AddKeeps(s.cache.neg, k, ());
        AddKeepsRecency(s.cache.neg, k, (), s.requests);
      case Found(p) =>
        AddKeeps(s.cache.lru, k, p);
        AddKeepsRecency(s.cache.lru, k, p, s.requests);
    }
  }

  /** Looking the key up first changes nothing about a rejection. */
  lemma TouchThenReject(c: Cache, k: KeyID)
    requires WellFormed(c.lru) && k in c.lru.values
    ensures Reject(c.(lru := Touch(c.lru, k)), k) == Reject(c, k)
  {
  }

  lemma GetKeepsInv(s: System, k: KeyID, vf: bool, ff: bool, max: int)
    requires Inv(s, max)
    ensures Inv(Requested(s, AfterGet(s.cache, s.db, k, vf, ff), k), max)
  {
    if k in s.cache.neg.values {
      HitKeepsInv(s, k, max);
    } else if k in s.cache.lru.values {
      HitKeepsInv(s, k, max);
      if Verify(s.db, k, vf) == Some(false) {
        TouchThenReject(s.cache, k);
        RejectKeepsInv(s, k, max);
      }
    } else {
      MissKeepsInv(s, k, ff, max);
    }
  }

  lemma {:induction false} RunKeepsInv(s: System, actions: seq<Action>, t: System, max: int)
    requires Run(s, actions, t) && Inv(s, max)
    ensures Inv(t, max)
    decreases |actions|
  {
    if actions != [] {
      match actions[0] {
        case Get(k, vf, ff) => GetKeepsInv(s, k, vf, ff, max);
        case Revoke(k) => RejectKeepsInv(s, k, max);
        case _ =>
      }
      RunKeepsInv(Step(s, actions[0]), actions[1..], t, max);
    }
  }

  // ---- What the caches promise ----

  /** After any calls and evictions, an answer other than an error is the one an uncached fill gives at that moment. */
  lemma GetIsUncached(max: int, actions: seq<Action>, s: System, k: KeyID, vf: bool, ff: bool)
    requires Run(Initial(max), actions, s)
    ensures var answer := Answered(s.cache, s.db, k, vf, ff);
            && (answer != Failed ==> answer == Fill(s.db, k, false))
            && (!vf && !ff ==> answer == Fill(s.db, k, false))
  {
    RunKeepsInv(Initial(max), actions, s, max);
  }

  /** Without failures, Get finds the policy of exactly the valid keys, refuses exactly the others, and fails on bad policies. */
  lemma {:induction false} GetAnswersFromDatabase(max: int, actions: seq<Action>, s: System, k: KeyID)
    requires Run(Initial(max), actions, s)
    ensures var answer := Answered(s.cache, s.db, k, false, false);
            && (answer == NotValid <==> k !in s.db.valid)
            && (k in s.db.valid ==> k in s.db.policies
                                    && answer == if s.db.policies[k].Some? then Found(s.db.policies[k].value) else Failed)
  {
    RunKeepsInv(Initial(max), actions, s, max);
  }

  /** No key is in both caches, and neither cache outgrows its bound. */
  lemma CachesAreDisjointAndBounded(max: int, actions: seq<Action>, s: System)
    requires Run(Initial(max), actions, s)
    ensures s.cache.lru.values.Keys !! s.cache.neg.values.Keys
    ensures max > 0 ==> |s.cache.lru.values| <= max && |s.cache.neg.values| <= max
  {
    RunKeepsInv(Initial(max), actions, s, max);
    if max > 0 {
      CountKeys(s.cache.lru.order, s.cache.lru.values.Keys);
      CountKeys(s.cache.neg.order, s.cache.neg.values.Keys);
    }
  }

  lemma {:induction false} CountKeys(order: seq<KeyID>, keys: set<KeyID>)
    requires forall k :: k in keys ==> k in order
    ensures |keys| <= |order|
    decreases |order|
  {
    if order == [] {
      assert keys == {};
    } else {
      CountKeys(order[1..], keys - {order[0]});
      assert keys <= (keys - {order[0]}) + {order[0]};
    }
  }

  /** The answer about k is cached, a failure is not, and no other key comes in. */
  ghost predicate Remembers(c: Cache, t: Cache, k: KeyID, answer: Answer) {
    && (match answer
        case Found(p) => k in t.lru.values && t.lru.values[k] == p
        case NotValid => k in t.neg.values && k !in t.lru.values
        case Failed => t.lru.values == c.lru.values && t.neg.values == c.neg.values)
    && t.lru.values.Keys <= c.lru.values.Keys + {k} && t.neg.values.Keys <= c.neg.values.Keys + {k}
  }

  lemma MissRemembers(s: System, k: KeyID, vf: bool, ff: bool, max: nat)
    requires Inv(s, max) && k !in s.cache.neg.values && k !in s.cache.lru.values
    ensures Remembers(s.cache, AfterGet(s.cache, s.db, k, vf, ff), k, Answered(s.cache, s.db, k, vf, ff))
  {
    match Fill(s.db, k, ff) {
      case Failed =>
      case NotValid => AddKeeps(s.cache.neg, k, ());
      case Found(p) => AddKeeps(s.cache.lru, k, p);
    }
  }

  lemma HitRemembers(s: System, k: KeyID, vf: bool, ff: bool, max: nat)
    requires Inv(s, max) && (k in s.cache.neg.values || k in s.cache.lru.values)
    ensures Remembers(s.cache, AfterGet(s.cache, s.db, k, vf, ff), k, Answered(s.cache, s.db, k, vf, ff))
  {
    if k !in s.cache.neg.values && Verify(s.db, k, vf) == Some(false) {
      TouchThenReject(s.cache, k);
      AddKeeps(s.cache.neg, k, ());
    }
  }

  /** What Get leaves behind in every reachable state. */
  lemma {:induction false} AnswersAreCached(max: nat, actions: seq<Action>, s: System, k: KeyID, vf: bool, ff: bool)
    requires Run(Initial(max), actions, s)
    ensures Remembers(s.cache, Step(s, Get(k, vf, ff)).cache, k, Answered(s.cache, s.db, k, vf, ff))
  {
    RunKeepsInv(Initial(max), actions, s, max);
    if k in s.cache.neg.values || k in s.cache.lru.values {
      HitRemembers(s, k, vf, ff, max);
    } else {
      MissRemembers(s, k, vf, ff, max);
    }
  }

  /** What caching saves: a key cached as invalid needs no database, and one with a policy only the check. */
  lemma CachedKeysNeedNoFill(c: Cache, db: Keys, k: KeyID, vf: bool, ff: bool)
    ensures k in c.neg.values ==> Answered(c, db, k, vf, ff) == NotValid
    ensures k in c.lru.values && k !in c.neg.values ==> Answered(c, db, k, vf, ff) == Answered(c, db, k, vf, !ff)
    ensures k in c.lru.values && k !in c.neg.values && vf ==> Answered(c, db, k, vf, ff) == Failed
  {
  }

  /** A revoked key is refused from then on, whatever the database says or fails to say, while it is remembered. */
  lemma {:induction false} RevokedIsRefused(max: nat, actions: seq<Action>, s: System, k: KeyID, db: Keys, vf: bool, ff: bool)
    requires Run(Initial(max), actions, s) && Enabled(s, Revoke(k))
    ensures var t := Step(s, Revoke(k)).cache;
            k in t.neg.values && k !in t.lru.values && Answered(t, db, k, vf, ff) == NotValid
  {
    RunKeepsInv(Initial(max), actions, s, max);
    AddKeeps(s.cache.neg, k, ());
  }

  /** Both caches are ordered by the last request for their keys, newest first, after every run. */
  lemma CachesAreOrderedByRequest(max: int, actions: seq<Action>, s: System)
    requires Run(Initial(max), actions, s)
    ensures ByRecency(s.cache.lru.order, s.requests) && ByRecency(s.cache.neg.order, s.requests)
    ensures forall k :: k in s.cache.lru.values <==> k in s.cache.lru.order
    ensures forall k :: k in s.cache.neg.values <==> k in s.cache.neg.order
  {
    RunKeepsInv(Initial(max), actions, s, max);
  }

  /** If x left the cache, it was full, and x was the key whose last request is the oldest. */
  ghost predicate EvictsOldest<V(!new)>(c: LRU<V>, c': LRU<V>, key: KeyID, requests: seq<KeyID>) {
    forall x :: x in c.values && x !in c'.values && x != key ==>
      && |c.order| == c.max
      && forall y :: y in c.values && y != x && y != key ==> y in c'.values && LastUse(requests, x) < LastUse(requests, y)
  }

  lemma AddEvictsOldest<V(!new)>(c: LRU<V>, k: KeyID, v: V, uses: seq<KeyID>)
    requires WellFormed(c) && ByRecency(c.order, uses)
    ensures EvictsOldest(c, Add(c, k, v), k, uses)
  {
    AddDropsLeastRecentlyUsed(c, k, v, uses);
  }

  lemma GetEvictsOldest(s: System, k: KeyID, vf: bool, ff: bool, max: int)
    requires Inv(s, max)
    ensures EvictsOldest(s.cache.lru, AfterGet(s.cache, s.db, k, vf, ff).lru, k, s.requests)
    ensures EvictsOldest(s.cache.neg, AfterGet(s.cache, s.db, k, vf, ff).neg, k, s.requests)
  {
    AddEvictsOldest(s.cache.neg, k, (), s.requests);
    var filled := Fill(s.db, k, ff);
    if filled.Found? {
      AddEvictsOldest(s.cache.lru, k, filled.policy, s.requests);
    }
  }

  /** In every reachable state, a request evicts only the key whose last request is the oldest, and only from a full cache. */
  lemma EvictionsAreLeastRecentlyUsed(max: int, actions: seq<Action>, s: System, a: Action)
    requires Run(Initial(max), actions, s) && Enabled(s, a)
    ensures EvictsOldest(s.cache.lru, Step(s, a).cache.lru, a.key, s.requests)
    ensures EvictsOldest(s.cache.neg, Step(s, a).cache.neg, a.key, s.requests)
  {
    RunKeepsInv(Initial(max), actions, s, max);
    match a {
      case Get(k, vf, ff) => GetEvictsOldest(s, k, vf, ff, max);
      case Revoke(k) => AddEvictsOldest(s.cache.neg, k, (), s.requests);
      case _ =>
    }
  }

  /** A key once refused is refused in every later call that does not fail, cached or not. */
  lemma {:induction false} RefusedForever(max: int, actions: seq<Action>, s: System, later: seq<Action>, t: System,
                                          k: KeyID, vf: bool, ff: bool)
    requires Run(Initial(max), actions, s) && k in s.requests && Answered(s.cache, s.db, k, false, false) == NotValid
    requires Run(s, later, t)
    ensures Answered(t.cache, t.db, k, vf, ff) in {NotValid, Failed}
  {
    RunKeepsInv(Initial(max), actions, s, max);
    assert k !in s.db.valid;
    RunKeepsInv(s, later, t, max);
    StaysInvalid(s, later, t, k);
  }

  lemma {:induction false} StaysInvalid(s: System, actions: seq<Action>, t: System, k: KeyID)
    requires Run(s, actions, t) && k in s.requests && k !in s.db.valid
    ensures k in t.requests && k !in t.db.valid
    decreases |actions|
  {
    if actions != [] {
      StaysInvalid(Step(s, actions[0]), actions[1..], t, k);
    }
  }

  /**
   The negative cache is trusted without a check: with correct policies cached, Get departs from an uncached fill
   exactly on a valid key that was cached as invalid, for example one revoked before it was deleted.
   */
  lemma NegativeEntriesAreTrusted(c: Cache, db: Keys, k: KeyID)
    requires db.valid <= db.policies.Keys
    requires k in c.lru.values ==> k in db.policies && db.policies[k] == Some(c.lru.values[k])
    ensures Answered(c, db, k, false, false) == Fill(db, k, false) <==> !(k in c.neg.values && k in db.valid)
  {
    if k in c.neg.values && k in db.valid {
      assert Answered(c, db, k, false, false) == NotValid;
      assert Fill(db, k, false) != NotValid;
    }
  }
}
