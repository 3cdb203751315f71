/** The authentication state cache with its secondary index by identity
    (pkg/proxy/auth_cache.go:349-498). The preflight cache is the same code with
    another payload, so the payload is a type parameter. */
module AuthCache {
  import opened Bytes

  datatype Entry<V> = Entry(value: V, expiresAt: int, identity: string)

  const CLEANUP_INTERVAL := 30_000_000_000

  datatype Cache<V> = Cache(
    entries: map<string, Entry<V>>,
    index: map<string, set<string>>,
    lastCleanup: Option<int>)     // None is the zero time

  function Empty<V>(): Cache<V> {
    Cache(map[], map[], None)
  }

  // ------------------------------------------------------------------
  // Specification
  // ------------------------------------------------------------------

  /** The keys among `keys` that are cached under `identity`. */
  function KeysOf<V>(c: Cache<V>, keys: set<string>, identity: string): set<string> {
    set k | k in keys && k in c.entries && c.entries[k].identity == identity && identity != ""
  }

  /** The cache without the given keys: each is taken out of the index set of its own
      identity, and a set that becomes empty is taken out of the index. */
  function Drop<V>(c: Cache<V>, keys: set<string>): Cache<V> {
    Cache(
      c.entries - keys,
      map id | id in c.index && (KeysOf(c, keys, id) == {} || c.index[id] - KeysOf(c, keys, id) != {}) ::
        c.index[id] - KeysOf(c, keys, id),
      c.lastCleanup)
  }

  predicate Expired<V>(e: Entry<V>, now: int) {
    e.expiresAt <= now
  }

  function ExpiredKeys<V>(c: Cache<V>, now: int): set<string> {
    set k | k in c.entries && Expired(c.entries[k], now)
  }

  predicate Due<V>(c: Cache<V>, now: int) {
    c.lastCleanup == None || now - c.lastCleanup.value >= CLEANUP_INTERVAL
  }

  function Cleaned<V>(c: Cache<V>, now: int): Cache<V> {
    if Due(c, now) then Drop(c, ExpiredKeys(c, now)).(lastCleanup := Some(now)) else c
  }

  function Put<V>(c: Cache<V>, key: string, e: Entry<V>): Cache<V> {
    var keys := if e.identity in c.index then c.index[e.identity] else {};
    Cache(
      c.entries[key := e],
      if e.identity == "" then c.index else c.index[e.identity := keys + {key}],
      c.lastCleanup)
  }

  /** The index lists exactly the cached keys of every identity, and no empty set. */
  ghost predicate Exact<V>(c: Cache<V>) {
    && (forall id :: id in c.index ==> id != "" && c.index[id] != {})
    && (forall id, k :: id in c.index && k in c.index[id] ==> k in c.entries && c.entries[k].identity == id)
    && (forall k :: k in c.entries && c.entries[k].identity != "" ==>
          c.entries[k].identity in c.index && k in c.index[c.entries[k].identity])
  }

  function Identified<V>(c: Cache<V>, ids: set<string>): set<string> {
    set k | k in c.entries && c.entries[k].identity != "" && c.entries[k].identity in ids
  }

  /** The keys that the index lists under the identities. */
  function Indexed<V>(c: Cache<V>, ids: set<string>): set<string> {
    set id, k | id in ids && id != "" && id in c.index && k in c.index[id] :: k
  }

  // ------------------------------------------------------------------
  // The cache
  // ------------------------------------------------------------------

  class StateCache<V(==)> {
    var entries: map<string, Entry<V>>
    var keysByIdentity: map<string, set<string>>
    var lastCleanup: Option<int>

    constructor ()
      ensures State() == Empty()
    {
      entries, keysByIdentity, lastCleanup := map[], map[], None;
    }

    function State(): Cache<V>
      reads this
    {
      Cache(entries, keysByIdentity, lastCleanup)
    }

    /** deleteEntryLocked */
    method DeleteEntryLocked(cacheKey: string)
      modifies this`entries, this`keysByIdentity
      ensures State() == Drop(old(State()), {cacheKey})
    {
      if cacheKey !in entries {
        NothingToDrop(State(), {cacheKey});
        return;
      }
      ghost var before := State();
      var identity := entries[cacheKey].identity;
      entries := entries - {cacheKey};
      DropOne(before, cacheKey);
      if identity == "" || identity !in keysByIdentity {
        return;
      }
      keysByIdentity := keysByIdentity[identity := keysByIdentity[identity] - {cacheKey}];
      if keysByIdentity[identity] == {} {
        keysByIdentity := keysByIdentity - {identity};
      }
    }

    /** The loop of the cleanup: every expired entry, in any order. */
    method DropExpired(now: int)
      modifies this`entries, this`keysByIdentity
      ensures State() == Drop(old(State()), ExpiredKeys(old(State()), now))
    {
      hide Drop, Expired, ExpiredKeys;
      ghost var before := State();
      ghost var expired := ExpiredKeys(before, now);
      ghost var done: set<string> := {};
      var todo := entries.Keys;
      NothingToDrop(before, {});
      ExpiredAreCached(before, now);
      while todo != {}
        invariant todo <= before.entries.Keys && done == expired - todo
        invariant State() == Drop(before, done)
        decreases |todo|
      {
        var cacheKey :| cacheKey in todo;
        DropEntries(before, done);
        ExpiredIs(before, now, cacheKey);
        OneLess(expired, todo, cacheKey);
        assert entries[cacheKey] == before.entries[cacheKey];
        if Expired(entries[cacheKey], now) {
          DropTwice(before, done, {cacheKey});
          DeleteEntryLocked(cacheKey);
          done := done + {cacheKey};
        }
        todo := todo - {cacheKey};
      }
      assert done == expired;
    }

    /** cleanupExpiredLocked: at most every thirty seconds. */
    method CleanupExpiredLocked(now: int)
      modifies this
      ensures State() == Cleaned(old(State()), now)
    {
      hide Drop, ExpiredKeys;
      if lastCleanup.Some? && now - lastCleanup.value < CLEANUP_INTERVAL {
        return;
      }
      DropExpired(now);
      lastCleanup := Some(now);
    }

    /** authCacheGet */
    method Get(cacheKey: string, now: int) returns (r: Option<Entry<V>>)
      modifies this`entries, this`keysByIdentity
      ensures r == Found(old(State()), cacheKey, now)
      ensures State() == AfterGet(old(State()), cacheKey, now)
    {
      if cacheKey !in entries {
        return None;
      }
      var entry := entries[cacheKey];
      if entry.expiresAt <= now {
        DeleteEntryLocked(cacheKey);
        return None;
      }
      return Some(entry);
    }

    /** authCacheStore */
    method Store(cacheKey: string, entry: Entry<V>, now: int)
      modifies this
      ensures State() == Cleaned(Put(old(State()), cacheKey, entry), now)
    {
      hide Drop;
      entries := entries[cacheKey := entry];
      if entry.identity != "" {
        var keys := if entry.identity in keysByIdentity then keysByIdentity[entry.identity] else {};
        keysByIdentity := keysByIdentity[entry.identity := keys + {cacheKey}];
      }
      CleanupExpiredLocked(now);
    }

    /** authCacheInvalidateByIdentityKeys, for one of the two caches: whatever the index lists
        under the identities is deleted. */
    method InvalidateByIdentityKeys(identityKeys: seq<string>)
      modifies this`entries, this`keysByIdentity
      ensures State() == Drop(old(State()), Indexed(old(State()), Elements(identityKeys)))
    {
      hide Drop, Indexed, Elements;
      ghost var before := State();
      ghost var done: set<string> := {};
      NothingToDrop(before, {});
      assert identityKeys[..0] == [];
      NoneIndexed(before);
      for i := 0 to |identityKeys|
        invariant done == Indexed(before, Elements(identityKeys[..i]))
        invariant State() == Drop(before, done)
      {
        ghost var gone := Indexed(State(), {identityKeys[i]});
        StillIndexed(before, done, identityKeys[i]);
        NextIndexed(before, identityKeys, i);
        if identityKeys[i] != "" {
          InvalidateOne(identityKeys[i]);
          DropTwice(before, done, gone);
        } else {
          assert gone == {} && done + gone == done;
        }
        done := done + gone;
      }
      assert identityKeys[..|identityKeys|] == identityKeys;
    }

    /** The inner loop: it ranges over the index set of the identity while the body takes
        keys out of that very set. A key is visited at most once, and only while present. */
    method InvalidateOne(identityKey: string)
      requires identityKey != ""
      modifies this`entries, this`keysByIdentity
      ensures State() == Drop(old(State()), Indexed(old(State()), {identityKey}))
    {
      hide Drop, Indexed;
      ghost var before := State();
      ghost var listed := Indexed(before, {identityKey});
      var visited: set<string> := {};
      NothingToDrop(before, {});
      while exists k :: k in Ranged(identityKey) && k !in visited
        invariant visited <= listed
        invariant State() == Drop(before, visited)
        decreases listed - visited
      {
        StillIndexed(before, visited, identityKey);
        IndexedOne(State(), identityKey);
        var cacheKey :| cacheKey in Ranged(identityKey) && cacheKey !in visited;
        DropTwice(before, visited, {cacheKey});
        DeleteEntryLocked(cacheKey);
        visited := visited + {cacheKey};
      }
      StillIndexed(before, visited, identityKey);
      IndexedOne(State(), identityKey);
      assert visited == listed;
    }

    /** What a range over `keysByIdentity[identityKey]` can still reach. */
    function Ranged(identityKey: string): set<string>
      reads this
    {
      if identityKey in keysByIdentity then keysByIdentity[identityKey] else {}
    }

    /** clearAuthCache, for one of the two caches. */
    method Clear()
      modifies this
      ensures State() == Empty()
    {
      entries, keysByIdentity, lastCleanup := map[], map[], None;
    }
  }

  function Elements(s: seq<string>): set<string> {
    set x | x in s
  }

  function Found<V>(c: Cache<V>, key: string, now: int): Option<Entry<V>> {
    if key in c.entries && !Expired(c.entries[key], now) then Some(c.entries[key]) else None
  }

  function AfterGet<V>(c: Cache<V>, key: string, now: int): Cache<V> {
    if key in c.entries && Expired(c.entries[key], now) then Drop(c, {key}) else c
  }

  // ------------------------------------------------------------------
  // Dropping keys
  // ------------------------------------------------------------------

  lemma NothingToDrop<V>(c: Cache<V>, keys: set<string>)
    requires keys !! c.entries.Keys
    ensures Drop(c, keys) == c
  {
    assert Drop(c, keys).entries == c.entries;
    forall id | id in c.index ensures KeysOf(c, keys, id) == {} && c.index[id] - KeysOf(c, keys, id) == c.index[id] {
    }
    assert Drop(c, keys).index == c.index;
  }

  lemma DropOne<V>(c: Cache<V>, k: string)
    requires k in c.entries
    ensures var id := c.entries[k].identity;
            Drop(c, {k}).index ==
            if id == "" || id !in c.index then c.index
            else if c.index[id] - {k} == {} then c.index - {id}
            else c.index[id := c.index[id] - {k}]
  {
    var id := c.entries[k].identity;
    forall x | x in c.index
      ensures KeysOf(c, {k}, x) == if x == id && id != "" then {k} else {}
      ensures c.index[x] - {} == c.index[x]
    {
    }
  }

  lemma DropEntries<V>(c: Cache<V>, keys: set<string>)
    ensures Drop(c, keys).entries == c.entries - keys
  {
  }

  lemma DropTwice<V>(c: Cache<V>, a: set<string>, b: set<string>)
    ensures Drop(Drop(c, a), b) == Drop(c, a + b)
  {
    var once := Drop(c, a);
    assert once.entries - b == c.entries - (a + b);
    forall id | id in c.index
      ensures KeysOf(c, a + b, id) == KeysOf(c, a, id) + KeysOf(once, b, id)
      ensures c.index[id] - KeysOf(c, a, id) - KeysOf(once, b, id) == c.index[id] - KeysOf(c, a + b, id)
    {
    }
    assert Drop(once, b).index == Drop(c, a + b).index by {
      hide KeysOf;
    }
  }

  lemma DropIsExact<V>(c: Cache<V>, keys: set<string>)
    requires Exact(c)
    ensures Exact(Drop(c, keys))
  {
    var after := Drop(c, keys);
    forall k | k in after.entries && after.entries[k].identity != ""
      ensures after.entries[k].identity in after.index && k in after.index[after.entries[k].identity]
    {
      var id := c.entries[k].identity;
      assert k in c.index[id] - KeysOf(c, keys, id);
    }
  }

  lemma ExpiredIs<V>(c: Cache<V>, now: int, key: string)
    requires key in c.entries
    ensures key in ExpiredKeys(c, now) <==> Expired(c.entries[key], now)
  {
  }

  lemma OneLess(all: set<string>, todo: set<string>, key: string)
    requires key in todo
    ensures all - (todo - {key}) == if key in all then all - todo + {key} else all - todo
  {
  }

  lemma ExpiredAreCached<V>(c: Cache<V>, now: int)
    ensures ExpiredKeys(c, now) <= c.entries.Keys
  {
  }

  lemma NoneIndexed<V>(c: Cache<V>)
    ensures Indexed(c, Elements([])) == {}
  {
  }

  lemma IndexedOne<V>(c: Cache<V>, id: string)
    ensures Indexed(c, {id}) == if id != "" && id in c.index then c.index[id] else {}
  {
  }

  lemma NextIndexed<V>(c: Cache<V>, ids: seq<string>, i: nat)
    requires i < |ids|
    ensures Indexed(c, Elements(ids[..i + 1])) == Indexed(c, Elements(ids[..i])) + Indexed(c, {ids[i]})
    ensures ids[i] == "" ==> Indexed(c, {ids[i]}) == {}
  {
    assert ids[..i + 1] == ids[..i] + [ids[i]];
    assert Elements(ids[..i + 1]) == Elements(ids[..i]) + {ids[i]};
  }

  /** Dropping keys takes nothing else out of an index set. */
  lemma StillIndexed<V>(c: Cache<V>, dropped: set<string>, id: string)
    ensures var after := Drop(c, dropped);
            && dropped + Indexed(after, {id}) == dropped + Indexed(c, {id})
            && Indexed(after, {id}) <= Indexed(c, {id})
  {
    IndexedOne(c, id);
    IndexedOne(Drop(c, dropped), id);
  }

  /** An exact index lists the entries of an identity. */
  lemma ExactIndexed<V>(c: Cache<V>, ids: set<string>)
    requires Exact(c)
    ensures Indexed(c, ids) == Identified(c, ids)
  {
  }
}
