/** The root-key cache of bakery/dbrootkeystore: keys, policies, the two cache generations and the
    per-policy current key, first as values and then as the objects whose methods update them. */
module RootKeyStore {
  import opened Basics

  type Id = bytes

  /** An instant in nanoseconds; 0 is Go's zero time. */
  type Time = int
  const ZERO_TIME: Time := 0

  /** Above this many policies the current-key map is thrown away. */
  const MAX_POLICY_CACHE := 100

  datatype Policy = Policy(generateInterval: int, expiryDuration: int)

  datatype RootKey = RootKey(id: Id, created: Time, expires: Time, secret: Option<bytes>) {
    predicate IsValid() { secret.Some? }

    /** The three conditions of the FindLatestKey query. */
    predicate Matches(p: Policy, now: Time) {
      && created >= now - p.generateInterval
      && expires >= now + p.expiryDuration
      && expires <= now + p.expiryDuration + p.generateInterval
    }

    predicate IsValidWithPolicy(p: Policy, now: Time) {
      IsValid() && Matches(p, now)
    }
  }

  /** Go's zero RootKey: in a cache it says that the id is known not to exist. */
  const ZERO_KEY := RootKey([], ZERO_TIME, ZERO_TIME, None)

  type Keys = map<Id, RootKey>

  datatype Caches = Caches(cache: Keys, oldCache: Keys, current: map<Policy, RootKey>)

  const NO_CACHES := Caches(map[], map[], map[])

  function FreshKey(p: Policy, now: Time, id: Id, secret: bytes): RootKey {
    RootKey(id, now, now + p.expiryDuration + p.generateInterval, Some(secret))
  }

  function AddedToCache(c: Caches, maxSize: int, id: Id, k: RootKey): Caches {
    if |c.cache| >= maxSize then c.(oldCache := c.cache, cache := map[id := k])
    else c.(cache := c.cache[id := k])
  }

  function WithCurrent(c: Caches, p: Policy, k: RootKey): Caches {
    c.(current := (if |c.current| > MAX_POLICY_CACHE then map[] else c.current)[p := k])
  }

  /** The key a lookup meets first: in the new generation, the old one, or the backing store. */
  function Lookup(c: Caches, backing: Keys, id: Id): RootKey {
    if id in c.cache then c.cache[id]
    else if id in c.oldCache then c.oldCache[id]
    else if id in backing then backing[id]
    else ZERO_KEY
  }

  /** The key, if it exists and has not expired. */
  function Unexpired(k: RootKey, now: Time): Option<RootKey> {
    if k.IsValid() && now <= k.expires then Some(k) else None
  }

  /** The caches after a Get: what was not in the new generation is moved there, expired keys as
      negative entries. */
  function CachesAfterGet(c: Caches, maxSize: int, backing: Keys, now: Time, id: Id): Caches {
    if id in c.cache then c
    else
      match Unexpired(Lookup(c, backing, id), now)
      case Some(k) => AddedToCache(c, maxSize, id, k)
      case None => AddedToCache(c, maxSize, id, ZERO_KEY)
  }

  predicate CurrentIsValid(c: Caches, p: Policy, now: Time) {
    p in c.current && c.current[p].IsValidWithPolicy(p, now)
  }

  /** k is the answer of rootKeyFromCache: the current key of the policy if it is still valid, else a
      most recently created valid key of the new generation. */
  ghost predicate FromCache(c: Caches, p: Policy, now: Time, k: RootKey) {
    if CurrentIsValid(c, p, now) then k == c.current[p]
    else
      && k in c.cache.Values && k.IsValidWithPolicy(p, now) && k.created > ZERO_TIME
      && forall k' :: k' in c.cache.Values && k'.IsValidWithPolicy(p, now) ==> k'.created <= k.created
  }

  ghost predicate NotFromCache(c: Caches, p: Policy, now: Time) {
    && !CurrentIsValid(c, p, now)
    && forall k :: k in c.cache.Values && k.IsValidWithPolicy(p, now) ==> k.created <= ZERO_TIME
  }

  /** k answers the FindLatestKey query. */
  ghost predicate IsLatest(backing: Keys, p: Policy, now: Time, k: RootKey) {
    && k in backing.Values && k.Matches(p, now)
    && forall k' :: k' in backing.Values && k'.Matches(p, now) ==> k'.created <= k.created
  }

  ghost predicate NoneMatches(backing: Keys, p: Policy, now: Time) {
    forall k :: k in backing.Values ==> !k.Matches(p, now)
  }

  /** A generated key meets the policy it was generated for exactly when the interval is not negative. */
  lemma FreshKeyMeetsPolicy(p: Policy, now: Time, id: Id, secret: bytes)
    ensures FreshKey(p, now, id, secret).IsValidWithPolicy(p, now) <==> p.generateInterval >= 0
  {
  }

  /** Adding a key loses nothing that was in the new generation, and the key is found first. */
  lemma RecentIsKept(c: Caches, maxSize: int, id: Id, k: RootKey, x: Id)
    ensures var c' := AddedToCache(c, maxSize, id, k);
      && Lookup(c', map[], id) == k
      && (x in c.cache && x != id ==> Lookup(c', map[], x) == c.cache[x])
  {
  }

  /** After a Get the answer for the id comes from the cache, as long as the key lasts. */
  lemma GetIsCached(c: Caches, maxSize: int, backing: Keys, now: Time, id: Id, later: Time)
    requires now <= later
    ensures var c' := CachesAfterGet(c, maxSize, backing, now, id);
      && id in c'.cache
      && Unexpired(Lookup(c', map[], id), later) == Unexpired(Lookup(c, backing, id), later)
  {
  }

  /** A policy's key goes on being returned while it is valid for the policy. */
  lemma CurrentIsReused(c: Caches, b: Keys, maxSize: int, p: Policy, now: Time, searchedAt: Time, madeAt: Time,
                        newId: Id, newSecret: bytes, k: RootKey, c': Caches, b': Keys, later: Time, k': RootKey)
    requires RootKeyCall(c, b, maxSize, p, now, searchedAt, madeAt, newId, newSecret, k, c', b')
    requires k.IsValidWithPolicy(p, later)
    ensures FromCache(c', p, later, k') <==> k' == k
    ensures !NotFromCache(c', p, later)
  {
  }

  /** The database behind a store. */
  class Backing {
    var keys: Keys

    constructor ()
      ensures keys == map[]
    {
      keys := map[];
    }

    method FindLatestKey(p: Policy, now: Time) returns (r: RootKey)
      requires forall k :: k in keys.Values ==> k.IsValid()
      ensures r.IsValid() ==> IsLatest(keys, p, now, r)
      ensures !r.IsValid() ==> r == ZERO_KEY && NoneMatches(keys, p, now)
    {
      r := ZERO_KEY;
      var todo := keys.Keys;
      while todo != {}
        invariant todo <= keys.Keys
        invariant r.IsValid() ==> r in keys.Values && r.Matches(p, now)
        invariant !r.IsValid() ==> r == ZERO_KEY
        invariant forall id :: id in keys && id !in todo && keys[id].Matches(p, now) ==>
          r.IsValid() && keys[id].created <= r.created
        decreases |todo|
      {
        var id :| id in todo;
        todo := todo - {id};
        var k := keys[id];
        if k.Matches(p, now) && (!r.IsValid() || k.created > r.created) {
          assert k in keys.Values;
          r := k;
        }
      }
    }

    /** Fails without change when the id is taken. */
    method InsertKey(key: RootKey) returns (ok: bool)
      modifies this
      ensures ok <==> key.id !in old(keys)
      ensures keys == if ok then old(keys)[key.id := key] else old(keys)
    {
      ok := key.id !in keys;
      if ok {
        keys := keys[key.id := key];
      }
    }
  }

  /** The cache shared by every store made from it. */
  class RootKeys {
    const maxCacheSize: int
    var oldCache: Keys
    var cache: Keys
    var current: map<Policy, RootKey>

    constructor (maxCacheSize: int)
      ensures this.maxCacheSize == maxCacheSize && Snapshot() == NO_CACHES
    {
      this.maxCacheSize := maxCacheSize;
      oldCache, cache, current := map[], map[], map[];
    }

    function Snapshot(): Caches
      reads this
    {
      Caches(cache, oldCache, current)
    }

    method AddCache(id: Id, k: RootKey)
      modifies this
      ensures Snapshot() == AddedToCache(old(Snapshot()), maxCacheSize, id, k) && current == old(current)
      ensures |old(cache)| < maxCacheSize ==> cache == old(cache)[id := k] && oldCache == old(oldCache)
      ensures |old(cache)| >= maxCacheSize ==> cache == map[id := k] && oldCache == old(cache)
    {
      if |cache| >= maxCacheSize {
        oldCache := cache;
        cache := map[];
      }
      cache := cache[id := k];
    }

    method SetCurrent(p: Policy, k: RootKey)
      modifies this
      ensures Snapshot() == WithCurrent(old(Snapshot()), p, k) && cache == old(cache) && oldCache == old(oldCache)
      ensures current == if |old(current)| > 100 then map[p := k] else old(current)[p := k]
    {
      if |current| > MAX_POLICY_CACHE {
        current := map[];
      }
      current := current[p := k];
    }

    method Get0(id: Id, b: Backing) returns (key: RootKey, inCache: bool, found: bool)
      ensures inCache <==> id in cache
      ensures found <==>
        (if id in cache || id in oldCache then Lookup(Snapshot(), b.keys, id).IsValid() else id in b.keys)
      ensures key == if found then Lookup(Snapshot(), b.keys, id) else ZERO_KEY
    {
      if id in cache {
        if !cache[id].IsValid() {
          return ZERO_KEY, true, false;
        }
        return cache[id], true, true;
      }
      if id in oldCache {
        if !oldCache[id].IsValid() {
          return ZERO_KEY, false, false;
        }
        return oldCache[id], false, true;
      }
      if id in b.keys {
        return b.keys[id], false, true;
      }
      return ZERO_KEY, false, false;
    }

    /** None stands for the not-found error. */
    method Get(now: Time, id: Id, b: Backing) returns (r: Option<RootKey>)
      requires forall k :: k in b.keys.Values ==> k.IsValid()
      modifies this
      ensures r == Unexpired(old(Lookup(Snapshot(), b.keys, id)), now)
      ensures Snapshot() == CachesAfterGet(old(Snapshot()), maxCacheSize, old(b.keys), now, id)
    {
      var key, inCache, found := Get0(id, b);
      if id in b.keys { assert b.keys[id] in b.keys.Values; }
      if found && now > key.expires {
        key := ZERO_KEY;
        found := false;
      }
      if !inCache {
        AddCache(id, key);
      }
      r := if found then Some(key) else None;
    }
  }

  /** A store: one policy and one backing over shared keys. */
  class Store {
    const keys: RootKeys
    const policy: Policy
    const backing: Backing

    /** NewStore: a zero interval defaults to the expiry duration. */
    constructor (keys: RootKeys, b: Backing, p: Policy)
      ensures this.keys == keys && backing == b
      ensures policy.expiryDuration == p.expiryDuration
      ensures policy.generateInterval == if p.generateInterval == 0 then p.expiryDuration else p.generateInterval
    {
      this.keys, backing := keys, b;
      policy := if p.generateInterval == 0 then p.(generateInterval := p.expiryDuration) else p;
    }

    method Get(now: Time, id: Id) returns (r: Option<bytes>)
      requires forall k :: k in backing.keys.Values ==> k.IsValid()
      modifies keys
      ensures var k := Unexpired(old(Lookup(keys.Snapshot(), backing.keys, id)), now);
              r == if k.None? then None else k.value.secret
      ensures keys.Snapshot() == CachesAfterGet(old(keys.Snapshot()), keys.maxCacheSize, old(backing.keys), now, id)
    {
      var key := keys.Get(now, id, backing);
      r := if key.None? then None else key.value.secret;
    }

    method RootKeyFromCache(now: Time) returns (r: RootKey)
      modifies keys
      ensures r.IsValid() ==> FromCache(old(keys.Snapshot()), policy, now, r)
      ensures r.IsValid() ==> keys.Snapshot() == old(keys.Snapshot()).(current := old(keys.current)[policy := r])
      ensures !r.IsValid() ==>
        NotFromCache(old(keys.Snapshot()), policy, now) && keys.Snapshot() == old(keys.Snapshot())
    {
      if policy in keys.current && keys.current[policy].IsValidWithPolicy(policy, now) {
        r := keys.current[policy];
        assert keys.current == keys.current[policy := r];
        return;
      }
      r := ZERO_KEY;
      var todo := keys.cache.Keys;
      while todo != {}
        invariant todo <= keys.cache.Keys
        invariant keys.Snapshot() == old(keys.Snapshot())
        invariant r != ZERO_KEY ==> r in keys.cache.Values && r.IsValidWithPolicy(policy, now) && r.created > ZERO_TIME
        invariant forall id :: id in keys.cache && id !in todo && keys.cache[id].IsValidWithPolicy(policy, now) ==>
          keys.cache[id].created <= r.created
        decreases |todo|
      {
        var id :| id in todo;
        todo := todo - {id};
        var k := keys.cache[id];
        if k.IsValidWithPolicy(policy, now) && k.created > r.created {
          assert k in keys.cache.Values;
          r := k;
        }
      }
      if r.IsValid() {
        keys.current := keys.current[policy := r];
      }
    }

    /** One uninterrupted RootKey call; it reads the clock at up to three non-decreasing instants, and
        newId and newSecret are the random bytes it would use. None stands for a failed insert. */
    method RootKey(now: Time, searchedAt: Time, madeAt: Time, newId: Id, newSecret: bytes)
      returns (r: Option<(bytes, Id)>, ghost k: RootKey)
      requires now <= searchedAt <= madeAt
      requires forall k :: k in backing.keys.Values ==> k.IsValid()
      modifies keys, backing
      ensures r.Some? ==>
        && RootKeyCall(old(keys.Snapshot()), old(backing.keys), keys.maxCacheSize, policy, now, searchedAt, madeAt,
                       newId, newSecret, k, keys.Snapshot(), backing.keys)
        && r.value == (k.secret.value, k.id)
      ensures r.Some? && NotFromCache(old(keys.Snapshot()), policy, now)
              && NoneMatches(old(backing.keys), policy, searchedAt) ==>
        && r.value == (newSecret, newId) && k.id == newId && k.created == madeAt
        && k.expires == madeAt + policy.expiryDuration + policy.generateInterval
        && newId in backing.keys && backing.keys[newId].secret == Some(newSecret)
      ensures r.None? ==>
        && NotFromCache(old(keys.Snapshot()), policy, now) && NoneMatches(old(backing.keys), policy, searchedAt)
        && newId in old(backing.keys) && keys.Snapshot() == old(keys.Snapshot()) && backing.keys == old(backing.keys)
    {
      var key := RootKeyFromCache(now);
      if key.IsValid() {
        return Some((key.secret.value, key.id)), key;
      }
      key := backing.FindLatestKey(policy, searchedAt);
      if !key.IsValid() {
        key := FreshKey(policy, madeAt, newId, newSecret);
        var ok := backing.InsertKey(key);
        if !ok {
          return None, key;
        }
      }
      keys.AddCache(key.id, key);
      keys.SetCurrent(policy, key);
      return Some((key.secret.value, key.id)), key;
    }
  }

  /** What an uninterrupted RootKey call that returns k does to the caches and the backing. */
  ghost predicate RootKeyCall(c: Caches, b: Keys, maxSize: int, p: Policy, now: Time, searchedAt: Time, madeAt: Time,
                              newId: Id, newSecret: bytes, k: RootKey, c': Caches, b': Keys)
  {
    && k.IsValid()
    && if !NotFromCache(c, p, now) then
         FromCache(c, p, now, k) && c' == c.(current := c.current[p := k]) && b' == b
       else
         && c' == WithCurrent(AddedToCache(c, maxSize, k.id, k), p, k)
         && if !NoneMatches(b, p, searchedAt) then IsLatest(b, p, searchedAt, k) && b' == b
            else k == FreshKey(p, madeAt, newId, newSecret) && newId !in b && b' == b[newId := k]
  }
}
