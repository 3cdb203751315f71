/** Runs of operations on an authentication cache (pkg/proxy/auth_cache.go:349-498). */
module AuthCacheHistory {
  // The index stays exact, and a lookup answers from the history of stores and removals.

  import opened Bytes
  import opened AuthCache

  datatype Op<V> =
    | Store(key: string, entry: Entry<V>, now: int)
    | Get(key: string, now: int)
    | Delete(key: string)             // the second half of a lookup that raced with a store
    | Invalidate(ids: seq<string>)
    | Clear

  function Step<V>(c: Cache<V>, op: Op<V>): Cache<V> {
    match op
    case Store(key, entry, now) => Cleaned(Put(c, key, entry), now)
    case Get(key, now) => AfterGet(c, key, now)
    case Delete(key) => Drop(c, {key})
    case Invalidate(ids) => Drop(c, Indexed(c, Elements(ids)))
    case Clear => Empty()
  }

  function Run<V>(ops: seq<Op<V>>): Cache<V> {
    if ops == [] then Empty() else Step(Run(ops[..|ops| - 1]), ops[|ops| - 1])
  }

  /** The latest store for a key that no later deletion, invalidation or clearing removed. */
  function Live<V>(ops: seq<Op<V>>, key: string): Option<Entry<V>> {
    if ops == [] then None
    else
      var before := Live(ops[..|ops| - 1], key);
      match ops[|ops| - 1]
      case Store(k, entry, _) => if k == key then Some(entry) else before
      case Get(_, _) => before
      case Delete(k) => if k == key then None else before
      case Invalidate(ids) =>
        if before.Some? && before.value.identity != "" && before.value.identity in ids then None else before
      case Clear => None
  }

  /** Clock readings do not decrease, up to `now`. */
  predicate Ordered<V>(ops: seq<Op<V>>, now: int) {
    ops != [] ==>
      var front, last := ops[..|ops| - 1], ops[|ops| - 1];
      if last.Store? || last.Get? then last.now <= now && Ordered(front, last.now) else Ordered(front, now)
  }

  /** Every store for a key carries the identity the key determines. */
  predicate Determined<V>(ops: seq<Op<V>>, identityOf: string -> string) {
    forall i :: 0 <= i < |ops| && ops[i].Store? ==> ops[i].entry.identity == identityOf(ops[i].key)
  }

  // ------------------------------------------------------------------
  // The index
  // ------------------------------------------------------------------

  /** Whether a store would move its key from one identity to another. */
  predicate Moves<V>(c: Cache<V>, key: string, e: Entry<V>) {
    key in c.entries && c.entries[key].identity != "" && c.entries[key].identity != e.identity
  }

  lemma PutKeepsExact<V>(c: Cache<V>, key: string, e: Entry<V>)
    requires Exact(c) && !Moves(c, key, e)
    ensures Exact(Put(c, key, e))
  {
  }

  lemma MovedKeyIsStale<V>(c: Cache<V>, key: string, e: Entry<V>, now: int)
    requires Exact(c) && Moves(c, key, e)
    ensures !Exact(Cleaned(Put(c, key, e), now))
  {
    var id, put := c.entries[key].identity, Put(c, key, e);
    assert key in c.index[id] && key in put.index[id];
    var expired := ExpiredKeys(put, now);
    assert key !in KeysOf(put, expired, id);
    assert key in put.index[id] - KeysOf(put, expired, id);
    var after := Cleaned(put, now);
    assert id in after.index && key in after.index[id];
    assert key in after.entries ==> after.entries[key].identity != id;
  }

  /** A store keeps the index exact if and only if it does not move the key to another identity. */
  lemma StoreKeepsExact<V>(c: Cache<V>, key: string, e: Entry<V>, now: int)
    requires Exact(c)
    ensures Exact(Cleaned(Put(c, key, e), now)) <==> !Moves(c, key, e)
  {
    hide Exact, Put, Cleaned, Moves;
    if Moves(c, key, e) {
      MovedKeyIsStale(c, key, e, now);
    } else {
      PutKeepsExact(c, key, e);
      CleanedIsExact(Put(c, key, e), now);
    }
  }

  lemma CleanedIsExact<V>(c: Cache<V>, now: int)
    requires Exact(c)
    ensures Exact(Cleaned(c, now))
  {
    hide Drop, ExpiredKeys;
    DropIsExact(c, ExpiredKeys(c, now));
    SameButTime(Drop(c, ExpiredKeys(c, now)), Some(now));
  }

  lemma SameButTime<V>(c: Cache<V>, t: Option<int>)
    ensures Exact(c.(lastCleanup := t)) <==> Exact(c)
  {
  }

  // ------------------------------------------------------------------
  // Runs
  // ------------------------------------------------------------------

  /** What a run has to keep: only live entries are cached, and a live entry that is not
      cached has expired. */
  ghost predicate Faithful<V>(c: Cache<V>, ops: seq<Op<V>>, now: int) {
    && (forall k :: k in c.entries ==> Live(ops, k) == Some(c.entries[k]))
    && (forall k :: k !in c.entries && Live(ops, k).Some? ==> Expired(Live(ops, k).value, now))
  }

  ghost predicate Keyed<V>(c: Cache<V>, identityOf: string -> string) {
    forall k :: k in c.entries ==> c.entries[k].identity == identityOf(k)
  }

  lemma DropStays<V>(c: Cache<V>, ops: seq<Op<V>>, now: int, keys: set<string>, next: seq<Op<V>>)
    requires Faithful(c, ops, now)
    requires forall k :: k in keys && Live(next, k).Some? ==>
               k in c.entries && Live(next, k) == Live(ops, k) && Expired(c.entries[k], now)
    requires forall k :: k !in keys ==> Live(next, k) == Live(ops, k)
    ensures Faithful(Drop(c, keys), next, now)
  {
    hide Live, Expired;
    DropEntries(c, keys);
  }

  lemma LaterIsFaithful<V>(c: Cache<V>, ops: seq<Op<V>>, before: int, now: int)
    requires Faithful(c, ops, before) && before <= now
    ensures Faithful(c, ops, now)
  {
    hide Live;
  }

  lemma LiveStep<V>(ops: seq<Op<V>>, op: Op<V>, key: string)
    ensures Live(ops + [op], key) ==
            var before := Live(ops, key);
            match op
            case Store(k, entry, _) => if k == key then Some(entry) else before
            case Get(_, _) => before
            case Delete(k) => if k == key then None else before
            case Invalidate(ids) =>
              if before.Some? && before.value.identity != "" && before.value.identity in ids then None else before
            case Clear => None
  {
    assert (ops + [op])[..|ops|] == ops;
  }

  lemma StoreIsFaithful<V>(c: Cache<V>, ops: seq<Op<V>>, op: Op<V>)
    requires op.Store? && Faithful(c, ops, op.now)
    ensures Faithful(Step(c, op), ops + [op], op.now)
  {
    hide Live, Expired, Drop;
    var next := ops + [op];
    forall k ensures Live(next, k) == if k == op.key then Some(op.entry) else Live(ops, k) {
      LiveStep(ops, op, k);
    }
    var put := Put(c, op.key, op.entry);
    assert Faithful(put, next, op.now);
    assert Faithful(Cleaned(put, op.now), next, op.now) by {
      DropStays(put, next, op.now, ExpiredKeys(put, op.now), next);
    }
  }

  lemma GetIsFaithful<V>(c: Cache<V>, ops: seq<Op<V>>, op: Op<V>)
    requires op.Get? && Faithful(c, ops, op.now)
    ensures Faithful(Step(c, op), ops + [op], op.now)
  {
    hide Live, Expired, Drop;
    var next := ops + [op];
    forall k ensures Live(next, k) == Live(ops, k) {
      LiveStep(ops, op, k);
    }
    if op.key in c.entries && Expired(c.entries[op.key], op.now) {
      DropStays(c, ops, op.now, {op.key}, next);
    }
  }

  lemma RemovalIsFaithful<V>(c: Cache<V>, ops: seq<Op<V>>, op: Op<V>, now: int)
    requires (op.Delete? || op.Invalidate? || op.Clear?) && Exact(c) && Faithful(c, ops, now)
    ensures Faithful(Step(c, op), ops + [op], now)
  {
    hide Live, Expired, Drop, Exact, Indexed;
    var next := ops + [op];
    if op.Invalidate? {
      ExactIndexed(c, Elements(op.ids));
    }
    forall k
      ensures Live(next, k) == Live(ops, k) || Live(next, k) == None
      ensures op.Clear? ==> Live(next, k) == None
      ensures op.Delete? ==> Live(next, k) == if k == op.key then None else Live(ops, k)
      ensures op.Invalidate? && k in c.entries ==>
                Live(next, k) == if k in Identified(c, Elements(op.ids)) then None else Live(ops, k)
    {
      LiveStep(ops, op, k);
    }
    if op.Delete? {
      DropEntries(c, {op.key});
    } else if op.Invalidate? {
      DropEntries(c, Identified(c, Elements(op.ids)));
    }
  }

  lemma StepKeepsExact<V>(c: Cache<V>, op: Op<V>, identityOf: string -> string)
    requires Exact(c) && Keyed(c, identityOf)
    requires op.Store? ==> op.entry.identity == identityOf(op.key)
    ensures Exact(Step(c, op)) && Keyed(Step(c, op), identityOf)
  {
    hide Exact, Put, Cleaned, Drop, Indexed, ExpiredKeys;
    StepKeepsKeyed(c, op, identityOf);
    match op {
      case Store(key, entry, now) => StoreKeepsExact(c, key, entry, now);
      case Get(key, _) => DropIsExact(c, {key});
      case Delete(key) => DropIsExact(c, {key});
      case Invalidate(ids) => DropIsExact(c, Indexed(c, Elements(ids)));
      case Clear => EmptyIsExact<V>();
    }
  }

  lemma EmptyIsExact<V>()
    ensures Exact(Empty<V>())
  {
  }

  lemma StepKeepsKeyed<V>(c: Cache<V>, op: Op<V>, identityOf: string -> string)
    requires Keyed(c, identityOf)
    requires op.Store? ==> op.entry.identity == identityOf(op.key)
    ensures Keyed(Step(c, op), identityOf)
  {
  }

  /** In any run with a nondecreasing clock in which keys determine identities, the index is
      exact in both directions and the cache is the live part of the history, but for
      entries that have expired. */
  lemma {:induction false} RunIsFaithful<V>(ops: seq<Op<V>>, identityOf: string -> string, now: int)
    requires Determined(ops, identityOf) && Ordered(ops, now)
    ensures Exact(Run(ops)) && Keyed(Run(ops), identityOf) && Faithful(Run(ops), ops, now)
  {
    hide Step, Exact, Keyed, Faithful;
    if ops == [] {
      assert Exact(Run(ops)) && Keyed(Run(ops), identityOf) by {
        EmptyIsExact<V>();
        EmptyIsKeyed<V>(identityOf);
      }
      EmptyIsFaithful<V>(now);
    } else {
      var front, last := ops[..|ops| - 1], ops[|ops| - 1];
      assert front + [last] == ops;
      var t := if last.Store? || last.Get? then last.now else now;
      RunIsFaithful(front, identityOf, t);
      var c := Run(front);
      StepKeepsExact(c, last, identityOf);
      match last {
        case Store(_, _, _) => StoreIsFaithful(c, front, last);
        case Get(_, _) => GetIsFaithful(c, front, last);
        case Delete(_) => RemovalIsFaithful(c, front, last, t);
        case Invalidate(_) => RemovalIsFaithful(c, front, last, t);
        case Clear => RemovalIsFaithful(c, front, last, t);
      }
      LaterIsFaithful(Run(ops), ops, t, now);
    }
  }

  lemma EmptyIsKeyed<V>(identityOf: string -> string)
    ensures Keyed(Empty<V>(), identityOf)
  {
  }

  lemma EmptyIsFaithful<V>(now: int)
    ensures Faithful(Empty<V>(), [], now)
  {
  }

  /** Main result: a lookup hits exactly when the latest store for the key is unexpired and
      was not since deleted, invalidated or cleared, and it returns that store's entry. */
  lemma HitsExactly<V>(ops: seq<Op<V>>, identityOf: string -> string, key: string, now: int)
    requires Determined(ops, identityOf) && Ordered(ops, now)
    ensures var live := Live(ops, key);
            Found(Run(ops), key, now) == if live.Some? && now < live.value.expiresAt then live else None
  {
    hide Live, Run, Exact, Determined, Ordered;
    RunIsFaithful(ops, identityOf, now);
  }

  /** A cleanup that is due leaves exactly the entries that have not expired; within thirty seconds
      of the last one nothing is done. */
  lemma CleanedExactly<V>(c: Cache<V>, now: int)
    ensures var due := c.lastCleanup == None || now - c.lastCleanup.value >= 30_000_000_000;
            if due then
              && Cleaned(c, now).lastCleanup == Some(now)
              && Cleaned(c, now).entries.Keys == set k | k in c.entries && now < c.entries[k].expiresAt
              && forall k :: k in Cleaned(c, now).entries ==> Cleaned(c, now).entries[k] == c.entries[k]
            else Cleaned(c, now) == c
  {
    hide Drop;
    DropEntries(c, ExpiredKeys(c, now));
  }

  /** Invalidating identities removes all their entries and no others. */
  lemma InvalidationIsExact<V>(ops: seq<Op<V>>, identityOf: string -> string, now: int, ids: seq<string>)
    requires Determined(ops, identityOf) && Ordered(ops, now)
    ensures var before, after := Run(ops), Run(ops + [Invalidate(ids)]);
            && Exact(after)
            && forall k :: k in after.entries <==>
                 k in before.entries && (before.entries[k].identity == "" || before.entries[k].identity !in ids)
    ensures forall k :: k in Run(ops + [Invalidate(ids)]).entries ==>
              k in Run(ops).entries && Run(ops + [Invalidate(ids)]).entries[k] == Run(ops).entries[k]
  {
    hide Exact, Determined, Ordered, Drop, Live, Indexed;
    RunIsFaithful(ops, identityOf, now);
    var c, op := Run(ops), Invalidate(ids);
    assert (ops + [op])[..|ops|] == ops;
    StepKeepsExact(c, op, identityOf);
    ExactIndexed(c, Elements(ids));
    DropEntries(c, Indexed(c, Elements(ids)));
  }

  // ------------------------------------------------------------------
  // Keys that move between identities
  // ------------------------------------------------------------------

  /** Every entry is listed under its identity, and no set of the index is empty. */
  ghost predicate Covers<V>(c: Cache<V>) {
    && (forall id :: id in c.index ==> id != "" && c.index[id] != {})
    && (forall k :: k in c.entries && c.entries[k].identity != "" ==>
          c.entries[k].identity in c.index && k in c.index[c.entries[k].identity])
  }

  lemma DropCovers<V>(c: Cache<V>, keys: set<string>)
    requires Covers(c)
    ensures Covers(Drop(c, keys))
  {
    var after := Drop(c, keys);
    forall k | k in after.entries && after.entries[k].identity != ""
      ensures after.entries[k].identity in after.index && k in after.index[after.entries[k].identity]
    {
      assert k in c.index[c.entries[k].identity] - KeysOf(c, keys, c.entries[k].identity);
    }
  }

  lemma StepCovers<V>(c: Cache<V>, op: Op<V>)
    requires Covers(c)
    ensures Covers(Step(c, op))
  {
    hide Drop, Indexed, ExpiredKeys;
    match op {
      case Store(key, entry, now) =>
        var put := Put(c, key, entry);
        DropCovers(put, ExpiredKeys(put, now));
      case Get(key, _) => DropCovers(c, {key});
      case Delete(key) => DropCovers(c, {key});
      case Invalidate(ids) => DropCovers(c, Indexed(c, Elements(ids)));
      case Clear =>
    }
  }

  lemma {:induction false} RunCovers<V>(ops: seq<Op<V>>)
    ensures Covers(Run(ops))
  {
    hide Step, Covers;
    if ops == [] {
      assert Covers(Empty<V>()) by {
        EmptyCovers<V>();
      }
    } else {
      RunCovers(ops[..|ops| - 1]);
      StepCovers(Run(ops[..|ops| - 1]), ops[|ops| - 1]);
    }
  }

  lemma EmptyCovers<V>()
    ensures Covers(Empty<V>())
  {
  }

  /** Main result: an invalidation never misses an entry of the identities, in any run, also when
      keys move between identities. */
  lemma InvalidationNeverMisses<V>(ops: seq<Op<V>>, ids: seq<string>)
    ensures forall k :: k in Run(ops + [Invalidate(ids)]).entries ==>
              var e := Run(ops + [Invalidate(ids)]).entries[k];
              k in Run(ops).entries && e == Run(ops).entries[k] && (e.identity == "" || e.identity !in ids)
  {
    hide Drop;
    var c := Run(ops);
    assert (ops + [Invalidate(ids)])[..|ops|] == ops;
    RunCovers(ops);
    DropEntries(c, Indexed(c, Elements(ids)));
  }

  /** The cache in front of the removals of a step. */
  function Before<V>(c: Cache<V>, op: Op<V>): Cache<V> {
    if op.Store? then Put(c, op.key, op.entry) else c
  }

  /** The key leaves the cache while its entry carries the identity. */
  predicate Leaves<V>(c: Cache<V>, op: Op<V>, key: string, id: string) {
    && key in Before(c, op).entries && Before(c, op).entries[key].identity == id
    && key !in Step(c, op).entries
  }

  predicate StoredUnder<V>(op: Op<V>, key: string, id: string) {
    op.Store? && op.key == key && op.entry.identity == id
  }

  predicate Listed<V>(c: Cache<V>, key: string, id: string) {
    id in c.index && key in c.index[id]
  }

  lemma DropListed<V>(c: Cache<V>, keys: set<string>, key: string, id: string)
    requires id != ""
    ensures Listed(Drop(c, keys), key, id) <==>
            Listed(c, key, id) && !(key in keys && key in c.entries && c.entries[key].identity == id)
  {
    if Listed(c, key, id) && !(key in keys && key in c.entries && c.entries[key].identity == id) {
      assert key in c.index[id] - KeysOf(c, keys, id);
    }
  }

  lemma PutListed<V>(c: Cache<V>, op: Op<V>, key: string, id: string)
    requires id != ""
    ensures Listed(Before(c, op), key, id) <==> Listed(c, key, id) || StoredUnder(op, key, id)
  {
  }

  /** A step lists a key under an identity when it stores it there, and takes it off when the key
      leaves the cache under that identity. */
  lemma StepListed<V>(c: Cache<V>, op: Op<V>, key: string, id: string)
    requires id != ""
    ensures Listed(Step(c, op), key, id) <==>
            (Listed(c, key, id) || StoredUnder(op, key, id)) && !op.Clear? && !Leaves(c, op, key, id)
  {
    hide Put, Drop, ExpiredKeys, Indexed, Listed;
    PutListed(c, op, key, id);
    var before := Before(c, op);
    match op {
      case Store(_, _, now) =>
        DropListed(before, ExpiredKeys(before, now), key, id);
        DropEntries(before, ExpiredKeys(before, now));
        SameListed(Drop(before, ExpiredKeys(before, now)), Some(now), key, id);
      case Get(k, now) =>
        DropListed(c, {k}, key, id);
        DropEntries(c, {k});
      case Delete(k) =>
        DropListed(c, {k}, key, id);
        DropEntries(c, {k});
      case Invalidate(ids) =>
        DropListed(c, Indexed(c, Elements(ids)), key, id);
        DropEntries(c, Indexed(c, Elements(ids)));
      case Clear =>
        EmptyListed<V>(key, id);
    }
  }

  lemma SameListed<V>(c: Cache<V>, t: Option<int>, key: string, id: string)
    ensures Listed(c.(lastCleanup := t), key, id) <==> Listed(c, key, id)
  {
  }

  lemma EmptyListed<V>(key: string, id: string)
    ensures !Listed(Empty<V>(), key, id)
  {
  }

  /** Stored under the identity by some operation, and not taken off since: the cache was not
      cleared, and the key did not leave it under that identity. */
  ghost predicate Lingers<V>(ops: seq<Op<V>>, key: string, id: string) {
    exists i :: 0 <= i < |ops| && StoredUnder(ops[i], key, id) && Undropped(ops, i, key, id)
  }

  ghost predicate Undropped<V>(ops: seq<Op<V>>, i: nat, key: string, id: string) {
    forall j :: i <= j < |ops| ==> !ops[j].Clear? && !Leaves(Run(ops[..j]), ops[j], key, id)
  }

  lemma UndroppedNext<V>(ops: seq<Op<V>>, op: Op<V>, i: nat, key: string, id: string)
    requires i < |ops| + 1
    ensures Undropped(ops + [op], i, key, id) <==>
            (i < |ops| ==> Undropped(ops, i, key, id)) && !op.Clear? && !Leaves(Run(ops), op, key, id)
  {
    hide Leaves, Run;
    var next := ops + [op];
    assert next[..|ops|] == ops && next[|ops|] == op;
    assert forall j :: 0 <= j < |ops| ==> next[j] == ops[j] && next[..j] == ops[..j];
    if Undropped(next, i, key, id) && i < |ops| {
      forall j | i <= j < |ops| ensures !ops[j].Clear? && !Leaves(Run(ops[..j]), ops[j], key, id) {
        assert !next[j].Clear? && !Leaves(Run(next[..j]), next[j], key, id);
      }
    }
  }

  lemma LingersNext<V>(ops: seq<Op<V>>, op: Op<V>, key: string, id: string)
    ensures Lingers(ops + [op], key, id) <==>
            (Lingers(ops, key, id) || StoredUnder(op, key, id)) && !op.Clear? && !Leaves(Run(ops), op, key, id)
  {
    hide Undropped, Leaves, Run, StoredUnder;
    var next := ops + [op];
    assert forall i :: 0 <= i < |ops| ==> next[i] == ops[i];
    forall i: nat | i < |next|
      ensures Undropped(next, i, key, id) <==>
              (i < |ops| ==> Undropped(ops, i, key, id)) && !op.Clear? && !Leaves(Run(ops), op, key, id)
    {
      UndroppedNext(ops, op, i, key, id);
    }
    if Lingers(ops, key, id) && !op.Clear? && !Leaves(Run(ops), op, key, id) {
      var i :| 0 <= i < |ops| && StoredUnder(ops[i], key, id) && Undropped(ops, i, key, id);
      assert StoredUnder(next[i], key, id) && Undropped(next, i, key, id);
    }
    if StoredUnder(op, key, id) && !op.Clear? && !Leaves(Run(ops), op, key, id) {
      assert StoredUnder(next[|ops|], key, id) && Undropped(next, |ops|, key, id);
    }
  }

  /** In every run the index lists a key under an identity exactly when it was stored under it and
      has not been taken off since. */
  lemma {:induction false} ListedExactlyWhen<V>(ops: seq<Op<V>>, key: string, id: string)
    requires id != ""
    ensures Listed(Run(ops), key, id) <==> Lingers(ops, key, id)
  {
    hide Step, Leaves, StoredUnder, Listed, Lingers;
    if ops == [] {
      EmptyListed<V>(key, id);
      NothingLingers<V>(key, id);
    } else {
      var front, op := ops[..|ops| - 1], ops[|ops| - 1];
      assert ops == front + [op];
      ListedExactlyWhen(front, key, id);
      StepListed(Run(front), op, key, id);
      LingersNext(front, op, key, id);
    }
  }

  lemma NothingLingers<V>(key: string, id: string)
    ensures !Lingers<V>([], key, id)
  {
  }

  /** A key that is cached under no invalidated identity, but lingers under one. */
  ghost predicate LeftBehind<V>(ops: seq<Op<V>>, ids: seq<string>, key: string) {
    && Spared(Run(ops), ids, key)
    && exists id :: id in ids && id != "" && Lingers(ops, key, id)
  }

  predicate Spared<V>(c: Cache<V>, ids: seq<string>, key: string) {
    key in c.entries && (c.entries[key].identity == "" || c.entries[key].identity !in ids)
  }

  /** Main result: after any run, an invalidation removes an entry of another identity if and only if
      its key lingers under an invalidated one. */
  lemma InvalidationExactlyWhen<V>(ops: seq<Op<V>>, ids: seq<string>, key: string)
    requires Spared(Run(ops), ids, key)
    ensures key !in Run(ops + [Invalidate(ids)]).entries <==> LeftBehind(ops, ids, key)
  {
    hide Drop, Lingers, Run, Step;
    var c, op := Run(ops), Invalidate(ids);
    RunNext(ops, op);
    InvalidateDrops(c, ids);
    DropEntries(c, Indexed(c, Elements(ids)));
    forall id | id in ids && id != ""
      ensures Lingers(ops, key, id) <==> id in c.index && key in c.index[id]
    {
      ListedExactlyWhen(ops, key, id);
    }
  }

  /** Such a run: a key stored under one identity and then under another. Invalidating the first
      removes the entry of the second. */
  lemma MovedKeyIsLost<V>(key: string, value: V)
    ensures var ops := [Store(key, Entry(value, 2, "a"), 0), Store(key, Entry(value, 2, "b"), 1)];
            && Spared(Run(ops), ["a"], key) && Run(ops).entries[key].identity == "b"
            && key !in Run(ops + [Invalidate(["a"])]).entries
  {
    hide Drop;
    var first, second := Store(key, Entry(value, 2, "a"), 0), Store(key, Entry(value, 2, "b"), 1);
    var once := Run([first]);
    RunNext([], first);
    RunNext([first], second);
    assert [] + [first] == [first] && [first] + [second] == [first, second];
    StoreKeeps(Empty(), first);
    StoreKeeps(once, second);
    RunNext([first, second], Invalidate(["a"]));
    InvalidateDrops(Run([first, second]), ["a"]);
    DropEntries(Run([first, second]), Indexed(Run([first, second]), Elements(["a"])));
    StepListed(Empty(), first, key, "a");
    StepListed(once, second, key, "a");
    assert "a" in ["a"] && "b" !in ["a"];
  }

  /** A store of an unexpired entry leaves it in the cache. */
  lemma StoreKeeps<V>(c: Cache<V>, op: Op<V>)
    requires op.Store? && op.now < op.entry.expiresAt
    ensures op.key in Step(c, op).entries && Step(c, op).entries[op.key] == op.entry
  {
    hide Drop;
    var put := Put(c, op.key, op.entry);
    DropEntries(put, ExpiredKeys(put, op.now));
  }

  lemma RunNext<V>(ops: seq<Op<V>>, op: Op<V>)
    ensures Run(ops + [op]) == Step(Run(ops), op)
  {
    hide Step;
    assert (ops + [op])[..|ops|] == ops;
  }

  lemma InvalidateDrops<V>(c: Cache<V>, ids: seq<string>)
    ensures Step(c, Invalidate(ids)) == Drop(c, Indexed(c, Elements(ids)))
  {
    hide Drop, Indexed;
  }
}
