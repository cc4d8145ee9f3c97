/** Runs of the root-key store: any number of RootKey and Get calls, of any stores sharing one
    RootKeys, interleaved at their critical sections and backing accesses, while time passes, the
    backing drops expired keys, other processes insert keys and this process restarts. */
module RootKeyRuns {
  import opened Basics
  import opened RootKeyStore

  /** Where a RootKey call has got to after the cache had no key for it. It reads the clock for the bounds of
      its search (`at`; `seen` holds the ids that had ever been inserted then) before it queries the backing,
      and neither happens under a lock. */
  datatype Call =
    | Missed(policy: Policy, start: Time)
    | Searching(policy: Policy, start: Time, at: Time, seen: set<Id>)
    | Unfound(policy: Policy, start: Time, seen: set<Id>)
    | Made(policy: Policy, start: Time, seen: set<Id>, key: RootKey)
    | Ready(policy: Policy, start: Time, key: RootKey)

  /** A RootKey call that began at `at` returned `key`, at the time `returned`. */
  datatype Issue = Issue(policy: Policy, at: Time, returned: Time, key: RootKey)

  /** A key generated and inserted by this process. */
  datatype Mint = Mint(policy: Policy, key: RootKey, seen: set<Id>)

  /** `all` remembers every key ever inserted; `unsettled` the inserted ids that no RootKey call
      has returned since the last restart. */
  datatype System = System(
    now: Time, maxSize: int, caches: Caches, backing: Keys, calls: map<nat, Call>,
    all: Keys, unsettled: set<Id>, issued: set<Issue>, minted: seq<Mint>)

  datatype Event =
    | Tick(d: nat)
    | Drop(id: Id)
    | ForeignInsert(key: RootKey)
    | Get(id: Id)
    | Hit(policy: Policy, key: RootKey)
    | Begin(t: nat, policy: Policy)
    | Search(t: nat)
    | SearchHit(t: nat, key: RootKey)
    | SearchMiss(t: nat)
    | Generate(t: nat, id: Id, secret: bytes)
    | Insert(t: nat)
    | Finish(t: nat)
    | Abort(t: nat)
    | Restart

  function Init(now: Time, maxSize: int): System {
    System(now, maxSize, NO_CACHES, map[], map[], map[], {}, {}, [])
  }

  ghost predicate Enabled(s: System, e: Event) {
    match e
    case Tick(_) => true
    case Drop(id) => id in s.backing && s.now > s.backing[id].expires
    case ForeignInsert(key) => key.id !in s.all && key.IsValid()
    case Get(_) => true
    case Hit(p, k) => !NotFromCache(s.caches, p, s.now) && FromCache(s.caches, p, s.now, k)
    case Begin(t, p) => t !in s.calls && NotFromCache(s.caches, p, s.now)
    case Search(t) => t in s.calls && s.calls[t].Missed?
    case SearchHit(t, k) => t in s.calls && s.calls[t].Searching?
      && IsLatest(s.backing, s.calls[t].policy, s.calls[t].at, k)
    case SearchMiss(t) => t in s.calls && s.calls[t].Searching?
      && NoneMatches(s.backing, s.calls[t].policy, s.calls[t].at)
    case Generate(t, _, _) => t in s.calls && s.calls[t].Unfound?
    case Insert(t) => t in s.calls && s.calls[t].Made? && s.calls[t].key.id !in s.all
    case Finish(t) => t in s.calls && s.calls[t].Ready?
    case Abort(t) => t in s.calls && !s.calls[t].Ready?
    case Restart => true
  }

  function Apply(s: System, e: Event): System
    requires Enabled(s, e)
  {
    match e
    case Tick(d) => s.(now := s.now + d)
    case Drop(id) => s.(backing := s.backing - {id})
    case ForeignInsert(key) => Inserted(s, key)
    case Get(id) => s.(caches := CachesAfterGet(s.caches, s.maxSize, s.backing, s.now, id))
    case Hit(p, k) =>
      s.(caches := s.caches.(current := s.caches.current[p := k]),
         issued := s.issued + {Issue(p, s.now, s.now, k)}, unsettled := s.unsettled - {k.id})
    case Begin(t, p) => s.(calls := s.calls[t := Missed(p, s.now)])
    case Search(t) => s.(calls := s.calls[t := Searching(s.calls[t].policy, s.calls[t].start, s.now, s.all.Keys)])
    case SearchHit(t, k) => s.(calls := s.calls[t := Ready(s.calls[t].policy, s.calls[t].start, k)])
    case SearchMiss(t) => s.(calls := s.calls[t := Unfound(s.calls[t].policy, s.calls[t].start, s.calls[t].seen)])
    case Generate(t, id, secret) =>
      var c := s.calls[t];
      s.(calls := s.calls[t := Made(c.policy, c.start, c.seen, FreshKey(c.policy, s.now, id, secret))])
    case Insert(t) =>
      var c := s.calls[t];
      Inserted(s, c.key).(calls := s.calls[t := Ready(c.policy, c.start, c.key)],
                          minted := s.minted + [Mint(c.policy, c.key, c.seen)])
    case Finish(t) =>
      var c := s.calls[t];
      s.(caches := WithCurrent(AddedToCache(s.caches, s.maxSize, c.key.id, c.key), c.policy, c.key),
         calls := s.calls - {t},
         issued := s.issued + {Issue(c.policy, c.start, s.now, c.key)}, unsettled := s.unsettled - {c.key.id})
    case Abort(t) => s.(calls := s.calls - {t})
    case Restart => s.(caches := NO_CACHES, calls := map[], unsettled := {})
  }

  function Inserted(s: System, key: RootKey): System {
    s.(backing := s.backing[key.id := key], all := s.all[key.id := key], unsettled := s.unsettled + {key.id})
  }

  /** t is reached from s by the events es. */
  ghost predicate Run(s: System, es: seq<Event>, t: System)
    decreases |es|
  {
    if es == [] then s == t
    else Enabled(s, es[0]) && Run(Apply(s, es[0]), es[1..], t)
  }

  /** What a Get would return now. */
  function GetAnswer(s: System, id: Id): Option<RootKey> {
    Unexpired(Lookup(s.caches, s.backing, id), s.now)
  }

  /** What a lookup without any cache would return: an expiry test over all keys ever inserted. */
  function PlainAnswer(s: System, id: Id): Option<RootKey> {
    if id in s.all then Unexpired(s.all[id], s.now) else None
  }

  // ---------- the invariant ----------

  /** What is missing from the backing has expired. */
  ghost predicate BackingOk(s: System) {
    && (forall id :: id in s.all ==> s.all[id].id == id && s.all[id].IsValid())
    && (forall id :: id in s.backing ==> id in s.all && s.backing[id] == s.all[id])
    && (forall id :: id in s.all && id !in s.backing ==> s.now > s.all[id].expires)
  }

  ghost predicate Agrees(m: Keys, all: Keys) {
    forall id :: id in m && m[id].IsValid() ==> id in all && m[id] == all[id]
  }

  ghost predicate CachesOk(s: System) {
    && Agrees(s.caches.cache, s.all) && Agrees(s.caches.oldCache, s.all)
    && (forall p :: p in s.caches.current ==> Settled(s, s.caches.current[p]))
    && |s.caches.cache| <= Max(1, s.maxSize) && |s.caches.oldCache| <= Max(1, s.maxSize)
  }

  function Max(a: int, b: int): int { if a < b then b else a }

  /** k was inserted, and some call has returned it since the last restart. */
  ghost predicate Settled(s: System, k: RootKey) {
    k.id in s.all && s.all[k.id] == k && k.id !in s.unsettled
  }

  /** A negative entry for a key that a call returned is shadowed until the key expires. */
  ghost predicate NegativesOk(s: System) {
    forall id :: id in s.all && id !in s.unsettled && s.now <= s.all[id].expires ==>
      Lookup(s.caches, s.backing, id) == s.all[id]
  }

  /** The promises of a policy about a key handed out by `returned` for a call that began at `at`: how long it
      lasts at least and at most, and how old it is at most. */
  ghost predicate Promise(p: Policy, at: Time, returned: Time, k: RootKey) {
    && (p.generateInterval >= 0 ==> at + p.expiryDuration <= k.expires && at - k.created <= p.generateInterval)
    && k.expires <= returned + p.expiryDuration + p.generateInterval
  }

  ghost predicate IssuesOk(s: System) {
    forall e :: e in s.issued ==>
      e.at <= e.returned <= s.now && Promise(e.policy, e.at, e.returned, e.key) && Settled(s, e.key)
  }

  ghost predicate CallOk(now: Time, all: Keys, c: Call) {
    && c.start <= now
    && match c
       case Searching(_, start, at, _) => start <= at <= now
       case Ready(p, start, k) => Promise(p, start, now, k) && k.id in all && all[k.id] == k
       case Made(p, start, _, k) =>
         k.IsValid() && start <= k.created <= now && k.expires == k.created + p.expiryDuration + p.generateInterval
       case _ => true
  }

  ghost predicate CallsOk(s: System) {
    forall t :: t in s.calls ==> CallOk(s.now, s.all, s.calls[t])
  }

  ghost predicate Inv(s: System) {
    BackingOk(s) && CachesOk(s) && NegativesOk(s) && IssuesOk(s) && CallsOk(s)
  }

  // ---------- every step keeps it ----------

  lemma StepKeepsBacking(s: System, e: Event)
    requires Inv(s) && Enabled(s, e)
    ensures BackingOk(Apply(s, e))
  {
  }

  /** Adding to the cache changes what is found for one id; for the others a cached entry may be
      forgotten, which leaves the backing. */
  lemma AddedLookup(c: Caches, maxSize: int, backing: Keys, id: Id, k: RootKey, x: Id)
    ensures var now := Lookup(AddedToCache(c, maxSize, id, k), backing, x);
      if x == id then now == k
      else now == Lookup(c, backing, x) || now == Lookup(NO_CACHES, backing, x)
  {
  }

  lemma AddingKeepsCaches(s: System, id: Id, k: RootKey, s': System)
    requires Inv(s) && (k.IsValid() ==> id in s.all && s.all[id] == k)
    requires s' == s.(caches := AddedToCache(s.caches, s.maxSize, id, k))
    ensures CachesOk(s')
  {
    var c, c' := s.caches, s'.caches;
    assert c'.current == c.current;
    if |c.cache| >= s.maxSize {
      assert |map[id := k]| == 1;
    } else {
      assert |c.cache[id := k]| <= |c.cache| + 1 by {
        assert c.cache[id := k].Keys == c.cache.Keys + {id};
      }
    }
  }

  lemma AddingKeepsNegatives(s: System, id: Id, k: RootKey, s': System)
    requires Inv(s) && (id in s.all && id !in s.unsettled && s.now <= s.all[id].expires ==> k == s.all[id])
    requires s' == s.(caches := AddedToCache(s.caches, s.maxSize, id, k))
    ensures NegativesOk(s')
  {
    forall x | x in s.all && x !in s.unsettled && s.now <= s.all[x].expires
      ensures Lookup(s'.caches, s.backing, x) == s.all[x]
    {
      AddedLookup(s.caches, s.maxSize, s.backing, id, k, x);
    }
  }

  lemma LookupAgrees(s: System, id: Id)
    requires Inv(s)
    ensures var k := Lookup(s.caches, s.backing, id);
      k.IsValid() ==> id in s.all && s.all[id] == k && k.id == id
  {
  }

  lemma GetKeeps(s: System, id: Id)
    requires Inv(s)
    ensures CachesOk(Apply(s, Get(id))) && NegativesOk(Apply(s, Get(id)))
  {
    LookupAgrees(s, id);
    if id !in s.caches.cache {
      var k := match Unexpired(Lookup(s.caches, s.backing, id), s.now) case Some(k) => k case None => ZERO_KEY;
      AddingKeepsCaches(s, id, k, Apply(s, Get(id)));
      AddingKeepsNegatives(s, id, k, Apply(s, Get(id)));
    }
  }

  lemma HitKeeps(s: System, p: Policy, k: RootKey)
    requires Inv(s) && Enabled(s, Hit(p, k))
    ensures CachesOk(Apply(s, Hit(p, k))) && NegativesOk(Apply(s, Hit(p, k))) && Settled(Apply(s, Hit(p, k)), k)
  {
    if !CurrentIsValid(s.caches, p, s.now) {
      var id :| id in s.caches.cache && s.caches.cache[id] == k;
      assert k.id == id && s.all[id] == k;
    }
  }

  lemma CurrentsSettled(s: System, t: nat)
    requires CachesOk(s) && CallsOk(s) && Enabled(s, Finish(t))
    ensures var s' := Apply(s, Finish(t));
      forall q :: q in s'.caches.current ==> Settled(s', s'.caches.current[q])
  {
    var s' := Apply(s, Finish(t));
    assert CallOk(s.now, s.all, s.calls[t]);
    forall q | q in s'.caches.current ensures Settled(s', s'.caches.current[q]) {
      if q != s.calls[t].policy {
        assert Settled(s, s.caches.current[q]);
      }
    }
  }

  lemma FinishKeeps(s: System, t: nat)
    requires Inv(s) && Enabled(s, Finish(t))
    ensures CachesOk(Apply(s, Finish(t))) && NegativesOk(Apply(s, Finish(t)))
  {
    var k := s.calls[t].key;
    var added := s.(caches := AddedToCache(s.caches, s.maxSize, k.id, k));
    AddingKeepsCaches(s, k.id, k, added);
    CurrentsSettled(s, t);
    FinishKeepsNegatives(s, t, k, added);
  }

  lemma FinishKeepsNegatives(s: System, t: nat, k: RootKey, added: System)
    requires Inv(s) && Enabled(s, Finish(t)) && k == s.calls[t].key
    requires added == s.(caches := AddedToCache(s.caches, s.maxSize, k.id, k))
    ensures NegativesOk(Apply(s, Finish(t)))
  {
    AddingKeepsNegatives(s, k.id, k, added);
    var s' := Apply(s, Finish(t));
    assert s'.caches.cache == added.caches.cache && s'.caches.oldCache == added.caches.oldCache;
    assert Lookup(s'.caches, s.backing, k.id) == k;
    forall x | x in s.all && x !in s'.unsettled && s.now <= s.all[x].expires
      ensures Lookup(s'.caches, s.backing, x) == s.all[x]
    {
      assert Lookup(s'.caches, s.backing, x) == Lookup(added.caches, s.backing, x);
    }
  }

  lemma InsertedKeeps(s: System, key: RootKey)
    requires Inv(s) && key.id !in s.all
    ensures var s' := Inserted(s, key); CachesOk(s') && NegativesOk(s')
  {
    var s' := Inserted(s, key);
    forall p | p in s'.caches.current ensures Settled(s', s'.caches.current[p]) {
      assert Settled(s, s.caches.current[p]);
    }
  }

  lemma RestartKeeps(s: System)
    requires Inv(s)
    ensures CachesOk(Apply(s, Restart)) && NegativesOk(Apply(s, Restart))
  {
  }

  lemma DropKeeps(s: System, id: Id)
    requires Inv(s) && Enabled(s, Drop(id))
    ensures CachesOk(Apply(s, Drop(id))) && NegativesOk(Apply(s, Drop(id)))
  {
    var s' := Apply(s, Drop(id));
    forall p | p in s'.caches.current ensures Settled(s', s'.caches.current[p]) {
      assert Settled(s, s.caches.current[p]);
    }
  }

  lemma StepKeepsCaches(s: System, e: Event)
    requires Inv(s) && Enabled(s, e)
    ensures CachesOk(Apply(s, e)) && NegativesOk(Apply(s, e))
  {
    match e
    case Get(id) => GetKeeps(s, id);
    case Hit(p, k) => HitKeeps(s, p, k);
    case Finish(t) => FinishKeeps(s, t);
    case Drop(id) => DropKeeps(s, id);
    case Restart => RestartKeeps(s);
    case Insert(t) => InsertedKeeps(s, s.calls[t].key);
    case ForeignInsert(key) => InsertedKeeps(s, key);
    case _ =>
      var s' := Apply(s, e);
      assert s'.caches == s.caches && s'.backing == s.backing && s'.all == s.all && s'.unsettled == s.unsettled;
      forall p | p in s'.caches.current ensures Settled(s', s'.caches.current[p]) {
        assert Settled(s, s.caches.current[p]);
      }
  }

  lemma StepKeepsCalls(s: System, e: Event)
    requires Inv(s) && Enabled(s, e)
    ensures CallsOk(Apply(s, e))
  {
    var s' := Apply(s, e);
    assert forall id :: id in s.all && !e.Restart? ==> id in s'.all && s'.all[id] == s.all[id];
    forall t | t in s'.calls ensures CallOk(s'.now, s'.all, s'.calls[t]) {
      if t in s.calls && s'.calls[t] == s.calls[t] {
        assert CallOk(s.now, s.all, s.calls[t]);
      } else if e.SearchHit? {
        assert CallOk(s.now, s.all, s.calls[t]);
        var id :| id in s.backing && s.backing[id] == e.key;
      } else if t in s.calls {
        assert CallOk(s.now, s.all, s.calls[t]);
      }
    }
  }

  lemma StaysSettled(s: System, e: Event, k: RootKey)
    requires Inv(s) && Enabled(s, e) && Settled(s, k)
    ensures Settled(Apply(s, e), k)
  {
  }

  lemma StepKeepsIssues(s: System, e: Event)
    requires Inv(s) && Enabled(s, e)
    ensures IssuesOk(Apply(s, e))
  {
    var s' := Apply(s, e);
    forall i | i in s'.issued
      ensures i.at <= i.returned <= s'.now && Promise(i.policy, i.at, i.returned, i.key) && Settled(s', i.key)
    {
      if i in s.issued {
        StaysSettled(s, e, i.key);
      } else if e.Hit? {
        HitKeeps(s, e.policy, e.key);
      } else {
        assert e.Finish? && CallOk(s.now, s.all, s.calls[e.t]);
      }
    }
  }

  lemma StepKeepsInv(s: System, e: Event)
    requires Inv(s) && Enabled(s, e)
    ensures Inv(Apply(s, e))
  {
    StepKeepsBacking(s, e);
    StepKeepsCaches(s, e);
    StepKeepsCalls(s, e);
    StepKeepsIssues(s, e);
  }

  // ---------- over whole runs ----------

  lemma InitInv(now: Time, maxSize: int)
    ensures Inv(Init(now, maxSize))
  {
  }

  lemma {:induction false} RunKeepsInv(s: System, es: seq<Event>, t: System)
    requires Inv(s) && Run(s, es, t)
    ensures Inv(t) && s.now <= t.now && s.issued <= t.issued && s.maxSize == t.maxSize
    decreases |es|
  {
    if es != [] {
      StepKeepsInv(s, es[0]);
      RunKeepsInv(Apply(s, es[0]), es[1..], t);
    }
  }

  /** An issued key is found by every Get up to the expiry duration after the RootKey call began,
      whatever happened to the caches since. */
  lemma IssuedKeyIsAvailable(now: Time, maxSize: int, before: seq<Event>, s: System, after: seq<Event>, t: System,
                             e: Issue)
    requires Run(Init(now, maxSize), before, s) && e in s.issued && Run(s, after, t)
    requires e.policy.generateInterval >= 0 || e.policy.expiryDuration < 0
    requires t.now <= e.at + e.policy.expiryDuration
    ensures GetAnswer(t, e.key.id) == Some(e.key)
  {
    InitInv(now, maxSize);
    RunKeepsInv(Init(now, maxSize), before, s);
    RunKeepsInv(s, after, t);
    assert e in t.issued && Settled(t, e.key);
    assert Promise(e.policy, e.at, e.returned, e.key);
    assert Lookup(t.caches, t.backing, e.key.id) == e.key;
  }

  /** The bounds of a policy, in every run: a key that is returned expires at most the expiry duration and the
      interval later, and it was created no more than the interval before the call. */
  lemma IssuedKeyIsBounded(now: Time, maxSize: int, es: seq<Event>, s: System, e: Issue)
    requires Run(Init(now, maxSize), es, s) && e in s.issued
    ensures e.key.expires <= e.returned + e.policy.expiryDuration + e.policy.generateInterval
    ensures e.policy.generateInterval >= 0 ==> e.key.created >= e.at - e.policy.generateInterval
    ensures e.at <= e.returned <= s.now
  {
    InitInv(now, maxSize);
    RunKeepsInv(Init(now, maxSize), es, s);
    assert Promise(e.policy, e.at, e.returned, e.key);
  }

  /** No RootKey call begins while another is in progress. */
  ghost predicate OneAtATime(s: System, es: seq<Event>)
    decreases |es|
  {
    es == [] || (Enabled(s, es[0]) && (es[0].Begin? ==> s.calls == map[]) && OneAtATime(Apply(s, es[0]), es[1..]))
  }

  lemma RunStep(s: System, e: Event, es: seq<Event>, t: System)
    requires Enabled(s, e) && Run(Apply(s, e), es, t)
    ensures Run(s, [e] + es, t)
    ensures OneAtATime(Apply(s, e), es) && (e.Begin? ==> s.calls == map[]) ==> OneAtATime(s, [e] + es)
  {
    assert ([e] + es)[1..] == es;
  }

  /** A call that finds no key generates one; here uninterrupted, searching and generating when told. */
  lemma GeneratingCall(s: System, p: Policy, searchedAt: Time, madeAt: Time, id: Id, secret: bytes)
    returns (es: seq<Event>, s': System)
    requires s.now <= searchedAt <= madeAt && s.calls == map[] && id !in s.all
    requires NotFromCache(s.caches, p, s.now) && NoneMatches(s.backing, p, searchedAt)
    ensures Run(s, es, s') && OneAtATime(s, es) && forall e :: e in es ==> !e.ForeignInsert?
    ensures var k := FreshKey(p, madeAt, id, secret);
      s' == s.(now := madeAt, caches := WithCurrent(AddedToCache(s.caches, s.maxSize, id, k), p, k),
               backing := s.backing[id := k], all := s.all[id := k], unsettled := s.unsettled - {id},
               issued := s.issued + {Issue(p, s.now, madeAt, k)}, minted := s.minted + [Mint(p, k, s.all.Keys)])
  {
    var es0, s1 := SearchStarts(s, 0, p, searchedAt);
    var s2 := Apply(s1, SearchMiss(0));
    es, s' := GenerateAndReturn(s2, 0, p, s.now, s.all.Keys, madeAt, id, secret);
    RunStep(s1, SearchMiss(0), es, s');
    RunAppend(s, es0, s1, [SearchMiss(0)] + es, s');
    es := es0 + ([SearchMiss(0)] + es);
  }

  /** The beginning of a call for which the cache has no key. */
  lemma SearchStarts(s: System, t: nat, p: Policy, searchedAt: Time) returns (es: seq<Event>, s': System)
    requires s.now <= searchedAt && t !in s.calls && NotFromCache(s.caches, p, s.now)
    ensures Run(s, es, s') && (s.calls == map[] ==> OneAtATime(s, es)) && forall e :: e in es ==> !e.ForeignInsert?
    ensures s' == s.(now := searchedAt, calls := s.calls[t := Searching(p, s.now, searchedAt, s.all.Keys)])
  {
    var d := searchedAt - s.now;
    var s1 := Apply(s, Begin(t, p));
    var s2 := Apply(s1, Tick(d));
    s' := Apply(s2, Search(t));
    assert s'.calls == s.calls[t := Searching(p, s.now, searchedAt, s.all.Keys)];
    RunStep(s2, Search(t), [], s');
    es := [Search(t)] + [];
    RunStep(s1, Tick(d), es, s');
    es := [Tick(d)] + es;
    RunStep(s, Begin(t, p), es, s');
    es := [Begin(t, p)] + es;
  }

  /** The end of a call that has found nothing, uninterrupted. */
  lemma GenerateAndReturn(s: System, t: nat, p: Policy, start: Time, seen: set<Id>, madeAt: Time, id: Id, secret: bytes)
    returns (es: seq<Event>, s': System)
    requires s.now <= madeAt && t in s.calls && s.calls[t] == Unfound(p, start, seen) && id !in s.all
    ensures Run(s, es, s') && OneAtATime(s, es) && forall e :: e in es ==> !e.ForeignInsert?
    ensures var k := FreshKey(p, madeAt, id, secret);
      s' == s.(now := madeAt, caches := WithCurrent(AddedToCache(s.caches, s.maxSize, id, k), p, k),
               calls := s.calls - {t}, backing := s.backing[id := k], all := s.all[id := k],
               unsettled := s.unsettled - {id}, issued := s.issued + {Issue(p, start, madeAt, k)},
               minted := s.minted + [Mint(p, k, seen)])
  {
    var k := FreshKey(p, madeAt, id, secret);
    var s1 := Apply(s, Tick(madeAt - s.now));
    var s2 := Apply(s1, Generate(t, id, secret));
    assert s2.calls[t] == Made(p, start, seen, k) && s2.calls - {t} == s.calls - {t};
    es, s' := InsertAndReturn(s2, t, p, start, seen, k);
    RunStep(s1, Generate(t, id, secret), es, s');
    es := [Generate(t, id, secret)] + es;
    RunStep(s, Tick(madeAt - s.now), es, s');
    es := [Tick(madeAt - s.now)] + es;
  }

  lemma InsertAndReturn(s: System, t: nat, p: Policy, start: Time, seen: set<Id>, k: RootKey)
    returns (es: seq<Event>, s': System)
    requires t in s.calls && s.calls[t] == Made(p, start, seen, k) && k.id !in s.all
    ensures Run(s, es, s') && OneAtATime(s, es) && forall e :: e in es ==> !e.ForeignInsert?
    ensures s' == s.(caches := WithCurrent(AddedToCache(s.caches, s.maxSize, k.id, k), p, k), calls := s.calls - {t},
                     backing := s.backing[k.id := k], all := s.all[k.id := k], unsettled := s.unsettled - {k.id},
                     issued := s.issued + {Issue(p, start, s.now, k)}, minted := s.minted + [Mint(p, k, seen)])
  {
    var s1 := Apply(s, Insert(t));
    assert s1.calls[t] == Ready(p, start, k);
    s' := Apply(s1, Finish(t));
    assert s'.unsettled == s.unsettled - {k.id} && s'.calls == s.calls - {t};
    RunStep(s1, Finish(t), [], s');
    es := [Finish(t)] + [];
    RunStep(s, Insert(t), es, s');
    es := [Insert(t)] + es;
  }

  /** With a negative interval (and a duration in which a Get can happen at all) the promise is broken
      by the very first key: it has expired when the duration ends. */
  lemma NegativeIntervalBreaksAvailability(now: Time, maxSize: int, p: Policy, id: Id, secret: bytes)
    returns (es: seq<Event>, s: System, es': seq<Event>, t: System, e: Issue)
    requires p.generateInterval < 0 && p.expiryDuration >= 0
    ensures Run(Init(now, maxSize), es, s) && e in s.issued && e.policy == p && Run(s, es', t)
    ensures t.now <= e.at + p.expiryDuration && GetAnswer(t, e.key.id) == None
  {
    var k := FreshKey(p, now, id, secret);
    es, s := GeneratingCall(Init(now, maxSize), p, now, now, id, secret);
    e := Issue(p, now, now, k);
    t := Apply(s, Tick(p.expiryDuration));
    RunStep(s, Tick(p.expiryDuration), [], t);
    es' := [Tick(p.expiryDuration)] + [];
  }

  /** The cache refines the plain lookup: the answers are equal for every id but those inserted and not
      yet handed out, and for these the cache may only fail to find the key. */
  lemma CacheRefinesLookup(now: Time, maxSize: int, es: seq<Event>, s: System, id: Id)
    requires Run(Init(now, maxSize), es, s)
    ensures id !in s.unsettled ==> GetAnswer(s, id) == PlainAnswer(s, id)
    ensures GetAnswer(s, id) == PlainAnswer(s, id) || GetAnswer(s, id) == None
    ensures |s.caches.cache| <= Max(1, maxSize) && |s.caches.oldCache| <= Max(1, maxSize)
  {
    InitInv(now, maxSize);
    RunKeepsInv(Init(now, maxSize), es, s);
    LookupAgrees(s, id);
    if id in s.all && id !in s.unsettled && s.now <= s.all[id].expires {
      assert Lookup(s.caches, s.backing, id) == s.all[id];
    }
  }

  /** Every unsettled id belongs to a call between inserting its key and returning it. */
  ghost predicate UnsettledInFlight(s: System) {
    forall id :: id in s.unsettled ==> exists t :: t in s.calls && s.calls[t].Ready? && s.calls[t].key.id == id
  }

  lemma {:induction false} OnlyCallsInFlightAreUnsettled(s: System, es: seq<Event>, t: System)
    requires UnsettledInFlight(s) && Run(s, es, t)
    requires forall e :: e in es ==> !e.ForeignInsert?
    ensures UnsettledInFlight(t)
    decreases |es|
  {
    if es != [] {
      var s' := Apply(s, es[0]);
      forall id | id in s'.unsettled
        ensures exists t :: t in s'.calls && s'.calls[t].Ready? && s'.calls[t].key.id == id
      {
        if id in s.unsettled {
          var t :| t in s.calls && s.calls[t].Ready? && s.calls[t].key.id == id;
          assert t in s'.calls && s'.calls[t] == s.calls[t];
        } else {
          assert es[0].Insert? && s'.calls[es[0].t].key.id == id;
        }
      }
      OnlyCallsInFlightAreUnsettled(s', es[1..], t);
    }
  }

  /** When keys enter the backing only through this process, a Get made while no RootKey call is in
      progress answers exactly as a lookup without cache. */
  lemma QuietGetIsPlainLookup(now: Time, maxSize: int, es: seq<Event>, s: System, id: Id)
    requires Run(Init(now, maxSize), es, s) && s.calls == map[]
    requires forall e :: e in es ==> !e.ForeignInsert?
    ensures GetAnswer(s, id) == PlainAnswer(s, id)
  {
    OnlyCallsInFlightAreUnsettled(Init(now, maxSize), es, s);
    CacheRefinesLookup(now, maxSize, es, s, id);
  }

  // ---------- how often keys are generated ----------

  /** The gaps known so far: between a key and every key that its call could see. */
  ghost predicate GapsOk(s: System) {
    && (forall i :: 0 <= i < |s.minted| ==> MintOk(s, s.minted[i]))
    && (forall i, j :: 0 <= i < |s.minted| && 0 <= j < |s.minted| ==> Apart(s.minted[i], s.minted[j]))
    && (forall t :: t in s.calls ==> CallApart(s, s.calls[t]))
  }

  ghost predicate MintOk(s: System, m: Mint) {
    && m.key.id in s.all && s.all[m.key.id] == m.key && m.key.created <= s.now && m.seen <= s.all.Keys
    && m.key.expires == m.key.created + m.policy.expiryDuration + m.policy.generateInterval
  }

  ghost predicate Apart(first: Mint, second: Mint) {
    first.policy == second.policy && Regular(first.policy) && first.key.id in second.seen ==>
      second.key.created - first.key.created > first.policy.generateInterval
  }

  ghost predicate CallApart(s: System, c: Call) {
    && (HasSeen(c) ==> c.seen <= s.all.Keys)
    && (c.Searching? ==> forall i :: 0 <= i < |s.minted| ==> CreatedBefore(s.minted[i], c))
    && (c.Unfound? ==> forall i :: 0 <= i < |s.minted| ==> OldEnough(s.minted[i], c, s.now))
    && (c.Made? ==> forall i :: 0 <= i < |s.minted| ==> Apart(s.minted[i], Mint(c.policy, c.key, c.seen)))
  }

  ghost predicate CreatedBefore(m: Mint, c: Call)
    requires c.Searching?
  {
    m.key.id in c.seen ==> m.key.created <= c.at
  }

  ghost predicate OldEnough(m: Mint, c: Call, now: Time)
    requires c.Unfound?
  {
    m.policy == c.policy && Regular(c.policy) && m.key.id in c.seen ==>
      now - m.key.created > c.policy.generateInterval
  }

  /** The policies for which keys are at least the interval apart. */
  predicate Regular(p: Policy) {
    p.expiryDuration >= 0 || p.generateInterval < 0
  }

  /** A search that finds nothing shows that every key of the policy is old enough that was inserted before
      the bounds of the search were computed, even if it was dropped before the backing was queried. */
  lemma MissMeansOldKeys(s: System, p: Policy, at: Time, m: Mint)
    requires Inv(s) && MintOk(s, m) && m.policy == p && Regular(p) && m.key.created <= at <= s.now
    requires NoneMatches(s.backing, p, at)
    ensures s.now - m.key.created > p.generateInterval
  {
    if m.key.id in s.backing {
      assert s.backing[m.key.id] == m.key && m.key in s.backing.Values;
      assert !m.key.Matches(p, at);
    }
  }

  lemma StepKeepsCallApart(s: System, e: Event, t: nat)
    requires Inv(s) && GapsOk(s) && Enabled(s, e) && t in Apply(s, e).calls
    ensures CallApart(Apply(s, e), Apply(s, e).calls[t])
  {
    var s' := Apply(s, e);
    if e.Insert? {
      InsertKeepsCallApart(s, e.t, t);
    } else if t in s.calls && s'.calls[t] == s.calls[t] {
      StaysApart(s, s', s.calls[t]);
    } else {
      ChangedCallApart(s, e, t);
    }
  }

  lemma ChangedCallApart(s: System, e: Event, t: nat)
    requires Inv(s) && GapsOk(s) && Enabled(s, e) && !e.Insert?
    requires t in Apply(s, e).calls && !(t in s.calls && Apply(s, e).calls[t] == s.calls[t])
    ensures CallApart(Apply(s, e), Apply(s, e).calls[t])
  {
    match e
    case Search(_) => SearchIsApart(s, t);
    case SearchMiss(_) => MissIsApart(s, t);
    case Generate(_, id, secret) => MadeIsApart(s, t, id, secret);
    case _ =>
  }

  lemma StaysApart(s: System, s': System, c: Call)
    requires CallApart(s, c) && s'.minted == s.minted && s.all.Keys <= s'.all.Keys && s.now <= s'.now
    ensures CallApart(s', c)
  {
  }

  lemma SearchIsApart(s: System, t: nat)
    requires GapsOk(s) && Enabled(s, Search(t))
    ensures CallApart(Apply(s, Search(t)), Apply(s, Search(t)).calls[t])
  {
    forall i | 0 <= i < |s.minted| ensures s.minted[i].key.created <= s.now {
      assert MintOk(s, s.minted[i]);
    }
  }

  lemma MadeIsApart(s: System, t: nat, id: Id, secret: bytes)
    requires GapsOk(s) && Enabled(s, Generate(t, id, secret))
    ensures CallApart(Apply(s, Generate(t, id, secret)), Apply(s, Generate(t, id, secret)).calls[t])
  {
    assert CallApart(s, s.calls[t]);
    forall i | 0 <= i < |s.minted| ensures OldEnough(s.minted[i], s.calls[t], s.now) {
    }
  }

  lemma MissIsApart(s: System, t: nat)
    requires Inv(s) && GapsOk(s) && Enabled(s, SearchMiss(t))
    ensures CallApart(Apply(s, SearchMiss(t)), Apply(s, SearchMiss(t)).calls[t])
  {
    var was, c := s.calls[t], Apply(s, SearchMiss(t)).calls[t];
    assert CallApart(s, was) && CallOk(s.now, s.all, was);
    forall i | 0 <= i < |s.minted| ensures OldEnough(s.minted[i], c, s.now) {
      assert MintOk(s, s.minted[i]);
      if s.minted[i].policy == c.policy && Regular(c.policy) && s.minted[i].key.id in c.seen {
        assert CreatedBefore(s.minted[i], was);
        MissMeansOldKeys(s, c.policy, was.at, s.minted[i]);
      }
    }
  }

  lemma InsertKeepsCallApart(s: System, u: nat, t: nat)
    requires Inv(s) && GapsOk(s) && Enabled(s, Insert(u)) && t in s.calls
    ensures CallApart(Apply(s, Insert(u)), Apply(s, Insert(u)).calls[t])
  {
    assert CallApart(s, s.calls[t]);
    assert s.calls[u].key.id !in s.all;
    assert Apply(s, Insert(u)).minted[..|s.minted|] == s.minted;
  }

  lemma StepKeepsGaps(s: System, e: Event)
    requires Inv(s) && GapsOk(s) && Enabled(s, e)
    ensures GapsOk(Apply(s, e))
  {
    var s' := Apply(s, e);
    forall t | t in s'.calls ensures CallApart(s', s'.calls[t]) {
      StepKeepsCallApart(s, e, t);
    }
    forall i | 0 <= i < |s'.minted| ensures MintOk(s', s'.minted[i]) {
      if i < |s.minted| {
        assert MintOk(s, s.minted[i]) && s'.minted[i] == s.minted[i];
      } else {
        assert CallOk(s.now, s.all, s.calls[e.t]);
      }
    }
    forall i, j | 0 <= i < |s'.minted| && 0 <= j < |s'.minted| ensures Apart(s'.minted[i], s'.minted[j]) {
      if i == |s.minted| {
        assert e.Insert? && s.calls[e.t].key.id !in s.all;
        if j < |s.minted| {
          assert MintOk(s, s.minted[j]);
        } else {
          assert CallApart(s, s.calls[e.t]);
        }
      } else if j == |s.minted| {
        assert CallApart(s, s.calls[e.t]);
      } else {
        assert s'.minted[i] == s.minted[i] && s'.minted[j] == s.minted[j];
      }
    }
  }

  lemma {:induction false} RunKeepsGaps(s: System, es: seq<Event>, t: System)
    requires Inv(s) && GapsOk(s) && Run(s, es, t)
    ensures GapsOk(t)
    decreases |es|
  {
    if es != [] {
      StepKeepsInv(s, es[0]);
      StepKeepsGaps(s, es[0]);
      RunKeepsGaps(Apply(s, es[0]), es[1..], t);
    }
  }

  /** In every run, interleaved as it may be: two keys of one policy are more than the interval apart
      if the first was inserted before the call that generated the second computed the bounds of its search. */
  lemma SeenKeysAreApart(now: Time, maxSize: int, es: seq<Event>, s: System, i: nat, j: nat)
    requires Run(Init(now, maxSize), es, s) && i < |s.minted| && j < |s.minted|
    requires s.minted[i].policy == s.minted[j].policy && Regular(s.minted[i].policy)
    requires s.minted[i].key.id in s.minted[j].seen
    ensures s.minted[j].key.created - s.minted[i].key.created > s.minted[i].policy.generateInterval
  {
    InitInv(now, maxSize);
    RunKeepsGaps(Init(now, maxSize), es, s);
    assert Apart(s.minted[i], s.minted[j]);
  }

  /** A key that is inserted between computing the bounds and querying the backing is no help: for every
      non-negative interval another key can be generated at the same instant. */
  lemma LateKeysMayBeClose(now: Time, maxSize: int, p: Policy, id: Id, id': Id, secret: bytes)
    returns (es: seq<Event>, queried: System, es': seq<Event>, s: System)
    requires p.generateInterval >= 0 && id != id'
    ensures Run(Init(now, maxSize), es, queried) && Run(queried, es', s) && es' != [] && es'[0] == SearchMiss(0)
    ensures |queried.minted| == 1 && |s.minted| == 2 && s.minted[0] == queried.minted[0]
    ensures s.minted[0].policy == s.minted[1].policy == p && s.minted[0].key.created == s.minted[1].key.created
  {
    var k := FreshKey(p, now + 1, id, secret);
    es, queried := KeyInBetween(now, maxSize, p, id, secret, k);
    var s1 := Apply(queried, SearchMiss(0));
    es', s := GenerateAndReturn(s1, 0, p, now, {}, now + 1, id', secret);
    RunStep(queried, SearchMiss(0), es', s);
    es' := [SearchMiss(0)] + es';
  }

  /** Call 0 has computed its bounds when call 1 generates and inserts a key. */
  lemma KeyInBetween(now: Time, maxSize: int, p: Policy, id: Id, secret: bytes, k: RootKey)
    returns (es: seq<Event>, s: System)
    requires k == FreshKey(p, now + 1, id, secret)
    ensures Run(Init(now, maxSize), es, s) && s.now == now + 1 && s.calls == map[0 := Searching(p, now, now, {})]
    ensures s.backing == map[id := k] && s.all.Keys == {id} && s.minted == [Mint(p, k, {})]
  {
    var es1, s1 := TwoSearches(now, maxSize, p);
    var s2 := Apply(s1, SearchMiss(1));
    assert s2.calls[1] == Unfound(p, now, {}) && s2.calls - {1} == map[0 := Searching(p, now, now, {})];
    es, s := GenerateAndReturn(s2, 1, p, now, {}, now + 1, id, secret);
    RunStep(s1, SearchMiss(1), es, s);
    RunAppend(Init(now, maxSize), es1, s1, [SearchMiss(1)] + es, s);
    es := es1 + ([SearchMiss(1)] + es);
  }

  lemma TwoSearches(now: Time, maxSize: int, p: Policy) returns (es: seq<Event>, s: System)
    ensures Run(Init(now, maxSize), es, s)
    ensures s == Init(now, maxSize).(now := now + 1,
                                     calls := map[0 := Searching(p, now, now, {}), 1 := Searching(p, now, now + 1, {})])
  {
    var es0, s0 := SearchStarts(Init(now, maxSize), 0, p, now);
    es, s := SearchStarts(s0, 1, p, now + 1);
    assert Init(now, maxSize).all.Keys == {};
    RunAppend(Init(now, maxSize), es0, s0, es, s);
    es := es0 + es;
  }

  ghost predicate SeesAllMinted(s: System, seen: set<Id>, n: nat)
    requires n <= |s.minted|
  {
    forall i :: 0 <= i < n ==> s.minted[i].key.id in seen
  }

  predicate HasSeen(c: Call) {
    c.Searching? || c.Unfound? || c.Made?
  }

  ghost predicate SequentialOk(s: System) {
    && (forall t, t' :: t in s.calls && t' in s.calls ==> t == t')
    && (forall t :: t in s.calls && HasSeen(s.calls[t]) ==>
      SeesAllMinted(s, s.calls[t].seen, |s.minted|))
    && (forall j :: 0 <= j < |s.minted| ==> SeesAllMinted(s, s.minted[j].seen, j))
  }

  lemma {:induction false} SequentialRunSeesAll(s: System, es: seq<Event>, t: System)
    requires Inv(s) && GapsOk(s) && SequentialOk(s) && Run(s, es, t) && OneAtATime(s, es)
    ensures SequentialOk(t)
    decreases |es|
  {
    if es != [] {
      StepKeepsInv(s, es[0]);
      StepKeepsGaps(s, es[0]);
      StepKeepsSequential(s, es[0]);
      SequentialRunSeesAll(Apply(s, es[0]), es[1..], t);
    }
  }

  lemma StepKeepsSequential(s: System, e: Event)
    requires GapsOk(s) && SequentialOk(s) && Enabled(s, e) && (e.Begin? ==> s.calls == map[])
    ensures SequentialOk(Apply(s, e))
  {
    var s' := Apply(s, e);
    forall i | 0 <= i < |s.minted| ensures s.minted[i].key.id in s.all {
      assert MintOk(s, s.minted[i]);
    }
    forall j | 0 <= j < |s'.minted| ensures SeesAllMinted(s', s'.minted[j].seen, j) {
      if j < |s.minted| {
        assert SeesAllMinted(s, s.minted[j].seen, j);
      } else {
        assert SeesAllMinted(s, s.calls[e.t].seen, |s.minted|);
      }
    }
    forall u | u in s'.calls && HasSeen(s'.calls[u])
      ensures SeesAllMinted(s', s'.calls[u].seen, |s'.minted|)
    {
      assert !e.Insert?;
      if !e.Search? {
        assert SeesAllMinted(s, s.calls[u].seen, |s.minted|);
      }
    }
  }

  /** In a run without overlapping RootKey calls any two keys of a regular policy are more than the
      interval apart, even though the current keys and the caches may have been lost in between. */
  lemma SequentialKeysAreApart(now: Time, maxSize: int, es: seq<Event>, s: System, i: nat, j: nat)
    requires Run(Init(now, maxSize), es, s) && OneAtATime(Init(now, maxSize), es) && i < j < |s.minted|
    requires s.minted[i].policy == s.minted[j].policy && Regular(s.minted[i].policy)
    ensures s.minted[j].key.created - s.minted[i].key.created > s.minted[i].policy.generateInterval
  {
    InitInv(now, maxSize);
    SequentialRunSeesAll(Init(now, maxSize), es, s);
    assert SeesAllMinted(s, s.minted[j].seen, j);
    SeenKeysAreApart(now, maxSize, es, s, i, j);
  }

  lemma {:induction false} RunAppend(s: System, es: seq<Event>, t: System, es': seq<Event>, u: System)
    requires Run(s, es, t) && Run(t, es', u)
    ensures Run(s, es + es', u)
    ensures OneAtATime(s, es) && OneAtATime(t, es') ==> OneAtATime(s, es + es')
    decreases |es|
  {
    if es == [] {
      assert es + es' == es';
    } else {
      RunAppend(Apply(s, es[0]), es[1..], t, es', u);
      assert (es + es')[1..] == es[1..] + es' && (es + es')[0] == es[0];
    }
  }

  /** The other policies can have keys generated at the interval or faster: a key that expires within
      the interval may be dropped and the next call, after a restart, makes another. */
  lemma IrregularPolicyBreaksRate(now: Time, maxSize: int, p: Policy, id: Id, id': Id, secret: bytes)
    returns (es: seq<Event>, s: System)
    requires !Regular(p) && id != id'
    ensures Run(Init(now, maxSize), es, s) && OneAtATime(Init(now, maxSize), es)
    ensures
      && |s.minted| == 2 && s.minted[0].policy == s.minted[1].policy == p
      && s.minted[1].key.created - s.minted[0].key.created <= p.generateInterval
  {
    var d := Max(0, p.expiryDuration + p.generateInterval + 1);
    var es0, s1 := GeneratingCall(Init(now, maxSize), p, now, now, id, secret);
    var es1, s2 := LossOfKey(s1, d, id);
    RunAppend(Init(now, maxSize), es0, s1, es1, s2);
    es, s := GeneratingCall(s2, p, now + d, now + d, id', secret);
    RunAppend(Init(now, maxSize), es0 + es1, s2, es, s);
    es := es0 + es1 + es;
  }

  /** Time passes, an expired key is dropped and the process restarts. */
  lemma LossOfKey(s: System, d: nat, id: Id) returns (es: seq<Event>, s': System)
    requires id in s.backing && s.now + d > s.backing[id].expires
    ensures Run(s, es, s') && OneAtATime(s, es)
    ensures s' ==
      s.(now := s.now + d, backing := s.backing - {id}, caches := NO_CACHES, calls := map[], unsettled := {})
  {
    var s1 := Apply(s, Tick(d));
    var s2 := Apply(s1, Drop(id));
    s' := Apply(s2, Restart);
    RunStep(s2, Restart, [], s');
    es := [Restart] + [];
    RunStep(s1, Drop(id), es, s');
    es := [Drop(id)] + es;
    RunStep(s, Tick(d), es, s');
    es := [Tick(d)] + es;
  }

  /** The creation times in [from, from + span] of the keys minted under p. */
  function CreatedWithin(ms: seq<Mint>, p: Policy, from: Time, span: nat): seq<Time> {
    if ms == [] then [] else
      var m := ms[|ms| - 1];
      CreatedWithin(ms[..|ms| - 1], p, from, span)
        + if m.policy == p && from <= m.key.created <= from + span then [m.key.created] else []
  }

  ghost predicate Spread(ts: seq<Time>, gap: int) {
    forall i, j :: 0 <= i < j < |ts| ==> ts[j] - ts[i] > gap
  }

  lemma {:induction false} CreatedWithinSpread(ms: seq<Mint>, p: Policy, from: Time, span: nat)
    requires forall i, j :: 0 <= i < j < |ms| && ms[i].policy == ms[j].policy == p ==>
      ms[j].key.created - ms[i].key.created > p.generateInterval
    ensures var ts := CreatedWithin(ms, p, from, span);
      && Spread(ts, p.generateInterval)
      && forall t :: t in ts ==>
        from <= t <= from + span && exists i :: 0 <= i < |ms| && ms[i].policy == p && ms[i].key.created == t
  {
    if ms != [] {
      var n := |ms| - 1;
      CreatedWithinSpread(ms[..n], p, from, span);
      var ts := CreatedWithin(ms[..n], p, from, span);
      forall t | t in ts ensures exists i :: 0 <= i < n && ms[i].policy == p && ms[i].key.created == t {
        var i :| 0 <= i < |ms[..n]| && ms[..n][i].policy == p && ms[..n][i].key.created == t;
        assert ms[i] == ms[..n][i];
      }
      assert forall k :: 0 <= k < |ts| ==> ts[k] in ts;
    }
  }

  lemma {:induction false} SpreadBound(ts: seq<Time>, gap: nat)
    requires Spread(ts, gap) && ts != []
    ensures (|ts| - 1) * (gap + 1) <= ts[|ts| - 1] - ts[0]
  {
    if |ts| > 1 {
      SpreadBound(ts[..|ts| - 1], gap);
      assert (|ts| - 1) * (gap + 1) == (|ts| - 2) * (gap + 1) + (gap + 1);
    }
  }

  /** A bound on the number of keys generated in any span of time. */
  lemma KeysPerSpan(now: Time, maxSize: int, es: seq<Event>, s: System, p: Policy, from: Time, span: nat)
    requires Run(Init(now, maxSize), es, s) && OneAtATime(Init(now, maxSize), es)
    requires p.expiryDuration >= 0 && p.generateInterval > 0
    ensures |CreatedWithin(s.minted, p, from, span)| <= span / p.generateInterval + 1
  {
    forall i, j | 0 <= i < j < |s.minted| && s.minted[i].policy == s.minted[j].policy == p
      ensures s.minted[j].key.created - s.minted[i].key.created > p.generateInterval
    {
      SequentialKeysAreApart(now, maxSize, es, s, i, j);
    }
    CreatedWithinSpread(s.minted, p, from, span);
    CountBound(CreatedWithin(s.minted, p, from, span), p.generateInterval, from, span);
  }

  lemma CountBound(ts: seq<Time>, gap: nat, from: Time, span: nat)
    requires gap > 0 && Spread(ts, gap) && forall t :: t in ts ==> from <= t <= from + span
    ensures |ts| <= span / gap + 1
  {
    if ts != [] {
      SpreadBound(ts, gap);
      assert ts[0] in ts && ts[|ts| - 1] in ts;
      DivideBound(|ts| - 1, gap, span);
    }
  }

  lemma DivideBound(n: nat, g: nat, span: nat)
    requires g > 0 && n * (g + 1) <= span
    ensures n <= span / g
  {
    assert (span / g + 1 - n) * g > 0 by {
      assert span < (span / g + 1) * g;
      assert n * g <= n * (g + 1);
    }
  }

  // ---------- the objects' methods are runs ----------

  /** An uninterrupted RootKey call, as the method Store.RootKey performs it, is a run of the system that
      issues the key it returns. */
  lemma RootKeyCallIsARun(s: System, p: Policy, searchedAt: Time, madeAt: Time, newId: Id, newSecret: bytes,
                          k: RootKey, c': Caches, b': Keys) returns (es: seq<Event>, s': System)
    requires s.now <= searchedAt <= madeAt && s.calls == map[] && Inv(s)
    requires RootKeyCall(s.caches, s.backing, s.maxSize, p, s.now, searchedAt, madeAt, newId, newSecret, k, c', b')
    requires newId !in s.all
    ensures Run(s, es, s') && OneAtATime(s, es) && s'.caches == c' && s'.backing == b' && s'.calls == map[]
    ensures Issue(p, s.now, s'.now, k) in s'.issued
  {
    if !NotFromCache(s.caches, p, s.now) {
      s' := Apply(s, Hit(p, k));
      RunStep(s, Hit(p, k), [], s');
      es := [Hit(p, k)] + [];
    } else if !NoneMatches(s.backing, p, searchedAt) {
      es, s' := FindingCall(s, p, searchedAt, k);
    } else {
      es, s' := GeneratingCall(s, p, searchedAt, madeAt, newId, newSecret);
    }
  }

  /** A call that finds its key in the backing. */
  lemma FindingCall(s: System, p: Policy, searchedAt: Time, k: RootKey) returns (es: seq<Event>, s': System)
    requires s.now <= searchedAt && s.calls == map[]
    requires NotFromCache(s.caches, p, s.now) && IsLatest(s.backing, p, searchedAt, k)
    ensures Run(s, es, s') && OneAtATime(s, es)
    ensures s'.caches == WithCurrent(AddedToCache(s.caches, s.maxSize, k.id, k), p, k)
    ensures s'.backing == s.backing && s'.calls == map[] && Issue(p, s.now, s'.now, k) in s'.issued
  {
    var es0, s1 := SearchStarts(s, 0, p, searchedAt);
    var s2 := Apply(s1, SearchHit(0, k));
    s' := Apply(s2, Finish(0));
    RunStep(s2, Finish(0), [], s');
    es := [Finish(0)] + [];
    RunStep(s1, SearchHit(0, k), es, s');
    es := [SearchHit(0, k)] + es;
    RunAppend(s, es0, s1, es, s');
    es := es0 + es;
  }

  // ---------- where keys come from ----------

  /** One of the events generated the key: its id and its secret are the random bytes of that event. */
  ghost predicate Generated(es: seq<Event>, k: RootKey) {
    exists j :: 0 <= j < |es| && es[j].Generate? && k.id == es[j].id && k.secret == Some(es[j].secret)
  }

  ghost predicate HasSource(es: seq<Event>, k: RootKey) {
    Generated(es, k) || ForeignInsert(k) in es
  }

  /** Every key inserted, and every key made for insertion, comes from one of the events so far. */
  ghost predicate SourcesOk(es: seq<Event>, s: System) {
    && (forall id :: id in s.all ==> HasSource(es, s.all[id]))
    && (forall t :: t in s.calls && s.calls[t].Made? ==> Generated(es, s.calls[t].key))
    && (forall i :: 0 <= i < |s.minted| ==> Generated(es, s.minted[i].key))
  }

  lemma SourceStays(es: seq<Event>, e: Event, k: RootKey)
    ensures Generated(es, k) ==> Generated(es + [e], k)
    ensures HasSource(es, k) ==> HasSource(es + [e], k)
  {
    if Generated(es, k) {
      var j :| 0 <= j < |es| && es[j].Generate? && k.id == es[j].id && k.secret == Some(es[j].secret);
      assert (es + [e])[j] == es[j];
    }
  }

  lemma StepKeepsSources(es: seq<Event>, s: System, e: Event)
    requires SourcesOk(es, s) && Enabled(s, e)
    ensures SourcesOk(es + [e], Apply(s, e))
  {
    var s' := Apply(s, e);
    assert (es + [e])[|es|] == e;
    forall k ensures (Generated(es, k) ==> Generated(es + [e], k)) && (HasSource(es, k) ==> HasSource(es + [e], k)) {
      SourceStays(es, e, k);
    }
    forall t | t in s'.calls && s'.calls[t].Made? ensures Generated(es + [e], s'.calls[t].key) {
      if !(e.Generate? && e.t == t) {
        assert s'.calls[t] == s.calls[t];
      }
    }
  }

  lemma {:induction false} RunKeepsSources(past: seq<Event>, s: System, es: seq<Event>, t: System)
    requires SourcesOk(past, s) && Run(s, es, t)
    ensures SourcesOk(past + es, t)
    decreases |es|
  {
    if es == [] {
      assert past + es == past;
    } else {
      StepKeepsSources(past, s, es[0]);
      RunKeepsSources(past + [es[0]], Apply(s, es[0]), es[1..], t);
      assert past + [es[0]] + es[1..] == past + es;
    }
  }

  /** In every run a key that is returned has the id and the secret of the random bytes it was generated with,
      or was inserted as it is by another process; and a key of this process was generated by it. */
  lemma {:induction false} KeysHaveSource(now: Time, maxSize: int, es: seq<Event>, s: System)
    requires Run(Init(now, maxSize), es, s)
    ensures forall e :: e in s.issued ==> Generated(es, e.key) || ForeignInsert(e.key) in es
    ensures forall i :: 0 <= i < |s.minted| ==> Generated(es, s.minted[i].key)
  {
    InitInv(now, maxSize);
    RunKeepsInv(Init(now, maxSize), es, s);
    RunKeepsSources([], Init(now, maxSize), es, s);
    assert [] + es == es;
    forall e | e in s.issued ensures HasSource(es, e.key) {
      assert Settled(s, e.key);
    }
  }
}
