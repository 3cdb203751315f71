/** The reverse proxy's token buckets (pkg/proxy/reverse_proxy_throttle.go). */
module Throttle {
  // A bucket per client, in 64 shards: a block after an empty bucket, a full bucket after
  // the block, and lazy eviction of idle buckets. Times are real seconds; a zero time.Time
  // is None.

  import opened Bytes

  const DEFAULT_RPS := 100
  const DEFAULT_BURST := 200
  const DEFAULT_BLOCK_SECONDS := 30
  const CLEANUP_INTERVAL: real := 60.0
  const MINIMUM_ENTRY_TTL := 120
  const SHARD_COUNT := 64

  datatype Config = Config(enabled: bool, requestsPerSecond: int, burst: int, blockSeconds: int)

  datatype Entry = Entry(tokens: real, lastSeen: Option<real>, blockedUntil: Option<real>)

  datatype Decision = Decision(allowed: bool, newlyBlocked: bool, blockedUntil: Option<real>)

  const ALLOWED := Decision(true, false, None)

  /** normalizeReverseProxyThrottleConfig */
  function Normalize(c: Config): (n: Config)
    ensures n.enabled == c.enabled && (n.enabled ==> Positive(n))
    ensures Positive(c) || !c.enabled ==> n == c
    ensures c.enabled && c.requestsPerSecond <= 0 ==> n.requestsPerSecond == 100
    ensures c.enabled && c.burst <= 0 ==> n.burst == 200
    ensures c.enabled && c.blockSeconds <= 0 ==> n.blockSeconds == 30
  {
    if !c.enabled then c
    else Config(true,
                if c.requestsPerSecond <= 0 then DEFAULT_RPS else c.requestsPerSecond,
                if c.burst <= 0 then DEFAULT_BURST else c.burst,
                if c.blockSeconds <= 0 then DEFAULT_BLOCK_SECONDS else c.blockSeconds)
  }

  /** An enabled configuration as the throttle uses it. */
  predicate Positive(c: Config) {
    c.enabled && c.requestsPerSecond >= 1 && c.burst >= 1 && c.blockSeconds >= 1
  }

  /** time.Time.After, where a zero time is in the past. */
  predicate After(t: Option<real>, now: real) {
    t.Some? && t.value > now
  }

  /** reverseProxyThrottleEntryTTL, in seconds */
  function EntryTTL(c: Config): int {
    if c.blockSeconds * 2 < MINIMUM_ENTRY_TTL then MINIMUM_ENTRY_TTL else c.blockSeconds * 2
  }

  // ------------------------------------------------------------------
  // One bucket
  // ------------------------------------------------------------------

  function NewEntry(c: Config): Entry {
    Entry(c.burst as real, None, None)
  }

  /** The tokens that accrue over `elapsed` seconds. */
  function Gain(elapsed: real, requestsPerSecond: int): real {
    elapsed * requestsPerSecond as real
  }

  /** The tokens of a bucket at `now`, before the request takes one. */
  function Refilled(c: Config, e: Entry, now: real): real {
    var tokens := if e.blockedUntil.Some? && e.tokens < 1.0 then c.burst as real else e.tokens;
    if e.lastSeen.Some? && now - e.lastSeen.value > 0.0 then
      var more := tokens + Gain(now - e.lastSeen.value, c.requestsPerSecond);
      if more > c.burst as real then c.burst as real else more
    else tokens
  }

  /** A request at `now` against its bucket. */
  function Step(c: Config, e: Entry, now: real): (Entry, Decision) {
    if After(e.blockedUntil, now) then
      (e.(lastSeen := Some(now)), Decision(false, false, e.blockedUntil))
    else
      var tokens := Refilled(c, e, now);
      if tokens < 1.0 then
        var until := Some(now + c.blockSeconds as real);
        (Entry(tokens, Some(now), until), Decision(false, true, until))
      else
        (Entry(tokens - 1.0, Some(now), None), ALLOWED)
  }

  // ------------------------------------------------------------------
  // Shards
  // ------------------------------------------------------------------

  datatype Shard = Shard(entries: map<string, Entry>, nextCleanup: Option<real>)

  const EMPTY_SHARD := Shard(map[], None)

  /** An entry the lazy cleanup at `now` drops. */
  predicate Evicts(c: Config, e: Entry, now: real) {
    !After(e.blockedUntil, now) && (e.lastSeen == None || now - e.lastSeen.value > EntryTTL(c) as real)
  }

  ghost function Cleaned(c: Config, s: Shard, now: real): Shard {
    if After(s.nextCleanup, now) then s
    else
      Shard(map id | id in s.entries && !Evicts(c, s.entries[id], now) :: s.entries[id], Some(now + CLEANUP_INTERVAL))
  }

  function EntryOf(c: Config, entries: map<string, Entry>, id: string): Entry {
    if id in entries then entries[id] else NewEntry(c)
  }

  ghost function EvaluateShard(c: Config, s: Shard, id: string, now: real): (Shard, Decision) {
    var cleaned := Cleaned(c, s, now);
    var (e, d) := Step(c, EntryOf(c, cleaned.entries, id), now);
    (cleaned.(entries := cleaned.entries[id := e]), d)
  }

  type Shards = s: seq<Shard> | |s| == SHARD_COUNT witness seq(SHARD_COUNT, _ => EMPTY_SHARD)

  ghost function ShardOf(hash: string -> nat, id: string): nat {
    hash(id) % SHARD_COUNT
  }

  /** One call of evaluate on all shards: no identity or no throttle, and nothing is looked up. */
  ghost function EvaluateShards(c: Config, hash: string -> nat, shards: Shards, id: string, now: real)
    : (Shards, Decision)
  {
    if id == "" || !c.enabled then (shards, ALLOWED)
    else
      var k := ShardOf(hash, id);
      var (s, d) := EvaluateShard(c, shards[k], id, now);
      (shards[k := s], d)
  }

  /** reverseProxyThrottle */
  class ReverseProxyThrottle {
    var config: Config
    const shards: array<Shard>
    /** reverseProxyThrottleHash: any function of the identity. */
    const hash: string -> nat

    ghost predicate Valid()
      reads this
    {
      shards.Length == SHARD_COUNT && (config.enabled ==> Positive(config))
    }

    constructor (cfg: Config, hash: string -> nat)
      ensures Valid() && config == Normalize(cfg) && this.hash == hash
      ensures fresh(shards) && forall k :: 0 <= k < SHARD_COUNT ==> shards[k] == EMPTY_SHARD
    {
      config := Normalize(cfg);
      shards := new Shard[SHARD_COUNT](_ => EMPTY_SHARD);
      this.hash := hash;
    }

    /** updateConfig: a disabled throttle forgets every bucket. */
    method UpdateConfig(cfg: Config)
      requires Valid()
      modifies this, shards
      ensures Valid() && config == Normalize(cfg)
      ensures forall k :: 0 <= k < SHARD_COUNT ==>
                shards[k] == if config.enabled then old(shards[k]) else EMPTY_SHARD
    {
      config := Normalize(cfg);
      if config.enabled {
        return;
      }
      for i := 0 to SHARD_COUNT
        invariant config == Normalize(cfg)
        invariant forall k :: 0 <= k < SHARD_COUNT ==> shards[k] == if k < i then EMPTY_SHARD else old(shards[k])
      {
        shards[i] := EMPTY_SHARD;
      }
    }

    /** cleanupLocked: visits the entries of one shard in any order. */
    method CleanupLocked(k: nat, now: real)
      requires Valid() && k < SHARD_COUNT
      modifies shards
      ensures shards[k] == Cleaned(config, old(shards[k]), now)
      ensures forall j :: 0 <= j < SHARD_COUNT && j != k ==> shards[j] == old(shards[j])
    {
      if After(shards[k].nextCleanup, now) {
        return;
      }
      ghost var was := shards[k].entries;
      var todo := shards[k].entries.Keys;
      while todo != {}
        invariant todo <= was.Keys
        invariant shards[k].entries ==
                    map id | id in was && (id in todo || !Evicts(config, was[id], now)) :: was[id]
        invariant forall j :: 0 <= j < SHARD_COUNT && j != k ==> shards[j] == old(shards[j])
        decreases todo
      {
        var id :| id in todo;
        if Evicts(config, shards[k].entries[id], now) {
          shards[k] := shards[k].(entries := shards[k].entries - {id});
        }
        todo := todo - {id};
      }
      shards[k] := shards[k].(nextCleanup := Some(now + CLEANUP_INTERVAL));
      assert shards[k].entries == map id | id in was && !Evicts(config, was[id], now) :: was[id];
    }

    /** evaluate, for a client address already normalised to `identity`. */
    method Evaluate(identity: string, now: real) returns (d: Decision)
      requires Valid()
      modifies shards
      ensures (shards[..], d) == EvaluateShards(config, hash, old(shards[..]), identity, now)
    {
      hide Cleaned, Evicts, Gain;
      if identity == "" {
        return ALLOWED;
      }
      var cfg := Normalize(config);
      if !cfg.enabled {
        return ALLOWED;
      }
      var k := hash(identity) % SHARD_COUNT;
      CleanupLocked(k, now);
      var entry := EntryOf(config, shards[k].entries, identity);
      ghost var found := entry;

      if After(entry.blockedUntil, now) {
        entry := entry.(lastSeen := Some(now));
        d := Decision(false, false, entry.blockedUntil);
      } else {
        if entry.blockedUntil.Some? {
          entry := entry.(blockedUntil := None);
          if entry.tokens < 1.0 {
            entry := entry.(tokens := config.burst as real);
          }
        }
        if entry.lastSeen.Some? {
          var elapsed := now - entry.lastSeen.value;
          if elapsed > 0.0 {
            entry := entry.(tokens := entry.tokens + Gain(elapsed, config.requestsPerSecond));
            if entry.tokens > config.burst as real {
              entry := entry.(tokens := config.burst as real);
            }
          }
        }
        assert entry.tokens == Refilled(config, found, now);
        entry := entry.(lastSeen := Some(now));
        if entry.tokens < 1.0 {
          entry := entry.(blockedUntil := Some(now + config.blockSeconds as real));
          d := Decision(false, true, entry.blockedUntil);
        } else {
          entry := entry.(tokens := entry.tokens - 1.0);
          d := ALLOWED;
        }
      }
      assert (entry, d) == Step(config, found, now);
      shards[k] := shards[k].(entries := shards[k].entries[identity := entry]);
      assert (shards[k], d) == EvaluateShard(config, old(shards[k]), identity, now);
      assert shards[..] == old(shards[..])[k := shards[k]];
    }
  }

  // ------------------------------------------------------------------
  // Runs: the sharded throttle and one map that never evicts
  // ------------------------------------------------------------------

  datatype Request = Request(id: string, now: real)

  ghost predicate Monotone(reqs: seq<Request>, from: real) {
    forall i :: 0 <= i < |reqs| ==> from <= reqs[i].now && forall j :: i <= j < |reqs| ==> reqs[i].now <= reqs[j].now
  }

  function NoShards(): Shards {
    seq(SHARD_COUNT, _ => EMPTY_SHARD)
  }

  /** The decisions of the sharded throttle on a sequence of requests. */
  ghost function ShardedRun(c: Config, hash: string -> nat, shards: Shards, reqs: seq<Request>): seq<Decision>
    decreases |reqs|
  {
    if reqs == [] then []
    else
      var (after, d) := EvaluateShards(c, hash, shards, reqs[0].id, reqs[0].now);
      [d] + ShardedRun(c, hash, after, reqs[1..])
  }

  /** One call of evaluate on a map that is never cleaned up. */
  ghost function EvaluatePlain(c: Config, buckets: map<string, Entry>, id: string, now: real)
    : (map<string, Entry>, Decision)
  {
    if id == "" || !c.enabled then (buckets, ALLOWED)
    else
      var (e, d) := Step(c, EntryOf(c, buckets, id), now);
      (buckets[id := e], d)
  }

  /** The decisions of a single map of buckets that is never cleaned up. */
  ghost function PlainRun(c: Config, buckets: map<string, Entry>, reqs: seq<Request>): seq<Decision>
    decreases |reqs|
  {
    if reqs == [] then []
    else
      var (after, d) := EvaluatePlain(c, buckets, reqs[0].id, reqs[0].now);
      [d] + PlainRun(c, after, reqs[1..])
  }

  /** A bucket holds at most a burst, and less than a token while a block is recorded. */
  predicate Healthy(c: Config, e: Entry) {
    0.0 <= e.tokens <= c.burst as real && (e.blockedUntil.Some? ==> e.tokens < 1.0)
  }

  /** A bucket as requests up to `now` leave it. */
  predicate Sound(c: Config, e: Entry, now: real) {
    Healthy(c, e) && e.lastSeen.Some? && e.lastSeen.value <= now
  }

  lemma {:induction false} StepSound(c: Config, e: Entry, now: real)
    requires Positive(c) && Healthy(c, e)
    ensures Sound(c, Step(c, e, now).0, now)
  {
    hide Refilled;
    RefillBounds(c, e, now);
    var tokens := Refilled(c, e, now);
    assert 0.0 <= tokens <= c.burst as real;
  }

  lemma {:induction false} GainPositive(elapsed: real, rps: int)
    requires elapsed >= 0.0 && rps >= 1
    ensures Gain(elapsed, rps) >= 0.0
  {
  }

  /** Refilling never loses tokens and never exceeds the burst. */
  lemma {:induction false} RefillBounds(c: Config, e: Entry, now: real)
    requires Positive(c) && Healthy(c, e)
    ensures 0.0 <= Refilled(c, e, now) <= c.burst as real
  {
    hide Gain;
    if e.lastSeen.Some? && now - e.lastSeen.value > 0.0 {
      GainPositive(now - e.lastSeen.value, c.requestsPerSecond);
    }
  }

  lemma {:induction false} LongIdle(rps: int, ttl: int, burst: int, elapsed: real)
    requires rps >= 1 && burst <= rps * ttl && elapsed > ttl as real
    ensures Gain(elapsed, rps) > burst as real
  {
    var r, t := rps as real, ttl as real;
    assert (elapsed - t) * r > 0.0;
    assert elapsed * r == (elapsed - t) * r + t * r;
    assert t * r == (rps * ttl) as real;
  }

  /** A dropped bucket would be full again. */
  lemma {:induction false} StaleIsNew(c: Config, e: Entry, now: real)
    requires Positive(c) && c.burst <= c.requestsPerSecond * EntryTTL(c)
    requires Sound(c, e, now) && Evicts(c, e, now)
    ensures Step(c, e, now) == Step(c, NewEntry(c), now)
  {
    hide Refilled, Gain;
    LongIdle(c.requestsPerSecond, EntryTTL(c), c.burst, now - e.lastSeen.value);
    StaleFills(c, e, now);
  }

  lemma {:induction false} StaleFills(c: Config, e: Entry, now: real)
    requires Positive(c) && Sound(c, e, now) && now - e.lastSeen.value > 0.0
    requires Gain(now - e.lastSeen.value, c.requestsPerSecond) > c.burst as real
    ensures Refilled(c, e, now) == c.burst as real == Refilled(c, NewEntry(c), now)
  {
    hide Gain;
  }

  /** What the sharded throttle knows agrees with the plain map; what it forgot is stale. */
  ghost predicate Refines(c: Config, hash: string -> nat, shards: Shards, buckets: map<string, Entry>, now: real) {
    && (forall k, id :: 0 <= k < SHARD_COUNT && id in shards[k].entries ==> k == ShardOf(hash, id) && id in buckets)
    && (forall id :: id in buckets ==>
          && Sound(c, buckets[id], now)
          && var es := shards[ShardOf(hash, id)].entries;
             if id in es then es[id] == buckets[id] else Evicts(c, buckets[id], now))
  }

  /** A stale bucket stays stale. */
  lemma {:induction false} RefinesLater(c: Config, hash: string -> nat, shards: Shards, buckets: map<string, Entry>,
                                        before: real, now: real)
    requires before <= now && Refines(c, hash, shards, buckets, before)
    ensures Refines(c, hash, shards, buckets, now)
  {
  }

  lemma EntryIsHealthy(c: Config, buckets: map<string, Entry>, id: string, now: real)
    requires Positive(c) && (id in buckets ==> Sound(c, buckets[id], now))
    ensures Healthy(c, EntryOf(c, buckets, id))
  {
  }

  lemma {:induction false} StepRefines(c: Config, hash: string -> nat, shards: Shards, buckets: map<string, Entry>,
                                       before: real, id: string, now: real)
    requires Positive(c) && c.burst <= c.requestsPerSecond * EntryTTL(c)
    requires before <= now && Refines(c, hash, shards, buckets, before)
    ensures var (shards', d) := EvaluateShards(c, hash, shards, id, now);
            var (buckets', d') := EvaluatePlain(c, buckets, id, now);
            d == d' && Refines(c, hash, shards', buckets', now)
  {
    hide EvaluateShard, Step, EntryTTL, Evicts, Refines;
    RefinesLater(c, hash, shards, buckets, before, now);
    if id != "" {
      BucketRefines(c, hash, shards, buckets, id, now);
    }
  }

  lemma {:induction false} BucketRefines(c: Config, hash: string -> nat, shards: Shards, buckets: map<string, Entry>,
                                         id: string, now: real)
    requires Positive(c) && c.burst <= c.requestsPerSecond * EntryTTL(c)
    requires Refines(c, hash, shards, buckets, now)
    ensures var k := ShardOf(hash, id);
            var (s, d) := EvaluateShard(c, shards[k], id, now);
            var (e, d') := Step(c, EntryOf(c, buckets, id), now);
            d == d' && Refines(c, hash, shards[k := s], buckets[id := e], now)
  {
    hide Step, EntryTTL, Evicts, Sound, Healthy;
    var k := ShardOf(hash, id);
    var (s, d) := EvaluateShard(c, shards[k], id, now);
    var cleaned := Cleaned(c, shards[k], now);
    EntryIsHealthy(c, buckets, id, now);
    if id in buckets && id !in cleaned.entries {
      StaleIsNew(c, buckets[id], now);
    }
    var e := Step(c, EntryOf(c, buckets, id), now).0;
    StepSound(c, EntryOf(c, buckets, id), now);
    assert Step(c, EntryOf(c, cleaned.entries, id), now) == Step(c, EntryOf(c, buckets, id), now);
  }

  /** When no bucket takes longer to fill than an idle one is kept, shards and
      eviction cannot be seen: every run gets the decisions of the plain map. */
  lemma {:induction false} RunRefines(c: Config, hash: string -> nat, shards: Shards, buckets: map<string, Entry>,
                                      before: real, reqs: seq<Request>)
    requires Positive(c) && c.burst <= c.requestsPerSecond * EntryTTL(c)
    requires Refines(c, hash, shards, buckets, before) && Monotone(reqs, before)
    ensures ShardedRun(c, hash, shards, reqs) == PlainRun(c, buckets, reqs)
    decreases |reqs|
  {
    hide EvaluateShards, EvaluatePlain, Refines;
    if reqs != [] {
      var id, now := reqs[0].id, reqs[0].now;
      StepRefines(c, hash, shards, buckets, before, id, now);
      var (after, after') := (EvaluateShards(c, hash, shards, id, now).0, EvaluatePlain(c, buckets, id, now).0);
      RunRefines(c, hash, after, after', now, reqs[1..]);
    }
  }

  // ------------------------------------------------------------------
  // One client
  // ------------------------------------------------------------------

  /** A run of requests against one bucket: the bucket it leaves, and the decisions. */
  ghost function EntryRun(c: Config, e: Entry, times: seq<real>): (Entry, seq<Decision>)
    decreases |times|
  {
    if times == [] then (e, [])
    else
      var (e1, d) := Step(c, e, times[0]);
      var (e2, ds) := EntryRun(c, e1, times[1..]);
      (e2, [d] + ds)
  }

  ghost function ShardRun(c: Config, s: Shard, id: string, times: seq<real>): (Shard, seq<Decision>)
    decreases |times|
  {
    if times == [] then (s, [])
    else
      var (s1, d) := EvaluateShard(c, s, id, times[0]);
      var (s2, ds) := ShardRun(c, s1, id, times[1..]);
      (s2, [d] + ds)
  }

  /** The requests of one client. */
  ghost function Requests(id: string, times: seq<real>): (reqs: seq<Request>)
    ensures |reqs| == |times| && forall i :: 0 <= i < |times| ==> reqs[i] == Request(id, times[i])
  {
    seq(|times|, i requires 0 <= i < |times| => Request(id, times[i]))
  }

  /** The times of the requests of client `id` in a mixed run, and their decisions. */
  ghost function TimesOf(reqs: seq<Request>, id: string): seq<real>
    decreases |reqs|
  {
    if reqs == [] then []
    else if reqs[0].id == id then [reqs[0].now] + TimesOf(reqs[1..], id) else TimesOf(reqs[1..], id)
  }

  ghost function DecisionsOf(reqs: seq<Request>, ds: seq<Decision>, id: string): seq<Decision>
    requires |ds| == |reqs|
    decreases |reqs|
  {
    if reqs == [] then []
    else if reqs[0].id == id then [ds[0]] + DecisionsOf(reqs[1..], ds[1..], id) else DecisionsOf(reqs[1..], ds[1..], id)
  }

  lemma {:induction false} PlainRunLength(c: Config, buckets: map<string, Entry>, reqs: seq<Request>)
    ensures |PlainRun(c, buckets, reqs)| == |reqs|
    decreases |reqs|
  {
    hide EvaluatePlain;
    if reqs != [] {
      PlainRunLength(c, EvaluatePlain(c, buckets, reqs[0].id, reqs[0].now).0, reqs[1..]);
    }
  }

  /** In the plain map clients do not influence each other. */
  lemma {:induction false} PlainRunProjects(c: Config, buckets: map<string, Entry>, reqs: seq<Request>, id: string)
    requires c.enabled && id != ""
    ensures |PlainRun(c, buckets, reqs)| == |reqs|
    ensures DecisionsOf(reqs, PlainRun(c, buckets, reqs), id)
         == EntryRun(c, EntryOf(c, buckets, id), TimesOf(reqs, id)).1
    decreases |reqs|
  {
    hide Step;
    PlainRunLength(c, buckets, reqs);
    if reqs != [] {
      var r := reqs[0];
      var after := EvaluatePlain(c, buckets, r.id, r.now).0;
      PlainRunProjects(c, after, reqs[1..], id);
      assert PlainRun(c, buckets, reqs)[1..] == PlainRun(c, after, reqs[1..]);
      if r.id == id {
        assert ([r.now] + TimesOf(reqs[1..], id))[1..] == TimesOf(reqs[1..], id);
      }
    }
  }

  lemma {:induction false} ShardedRunOfOne(c: Config, hash: string -> nat, shards: Shards, id: string, times: seq<real>)
    requires c.enabled && id != ""
    ensures ShardedRun(c, hash, shards, Requests(id, times)) == ShardRun(c, shards[ShardOf(hash, id)], id, times).1
    decreases |times|
  {
    hide EvaluateShard;
    if times != [] {
      var k := ShardOf(hash, id);
      assert Requests(id, times)[1..] == Requests(id, times[1..]);
      ShardedRunOfOne(c, hash, shards[k := EvaluateShard(c, shards[k], id, times[0]).0], id, times[1..]);
    }
  }

  lemma {:induction false} TimesOfOne(id: string, times: seq<real>)
    ensures TimesOf(Requests(id, times), id) == times
    decreases |times|
  {
    if times != [] {
      assert Requests(id, times)[1..] == Requests(id, times[1..]);
      TimesOfOne(id, times[1..]);
    }
  }

  lemma {:induction false} DecisionsOfOne(id: string, times: seq<real>, ds: seq<Decision>)
    requires |ds| == |times|
    ensures DecisionsOf(Requests(id, times), ds, id) == ds
    decreases |times|
  {
    if times != [] {
      assert Requests(id, times)[1..] == Requests(id, times[1..]);
      DecisionsOfOne(id, times[1..], ds[1..]);
    }
  }

  // ------------------------------------------------------------------
  // When eviction shows
  // ------------------------------------------------------------------

  ghost function Copies<T>(x: T, n: nat): (s: seq<T>)
    ensures |s| == n && forall i :: 0 <= i < n ==> s[i] == x
  {
    if n == 0 then [] else [x] + Copies(x, n - 1)
  }

  ghost predicate AllAllowed(ds: seq<Decision>) {
    forall i :: 0 <= i < |ds| ==> ds[i].allowed
  }

  lemma {:induction false} AllAllowedCons(d: Decision, ds: seq<Decision>)
    ensures AllAllowed([d] + ds) <==> d.allowed && AllAllowed(ds)
  {
    if AllAllowed([d] + ds) {
      assert ([d] + ds)[0] == d;
      assert forall i :: 0 <= i < |ds| ==> ds[i] == ([d] + ds)[i + 1];
    }
  }

  /** An unblocked bucket last seen at `now` admits n requests at `now` exactly
      when it holds n tokens. */
  lemma {:induction false} AtOnce(c: Config, tokens: real, now: real, n: nat)
    requires Positive(c) && 0.0 <= tokens <= c.burst as real
    ensures var e := Entry(tokens, Some(now), None);
            var (e', ds) := EntryRun(c, e, Copies(now, n));
            && (AllAllowed(ds) <==> tokens >= n as real)
            && (AllAllowed(ds) ==> e' == Entry(tokens - n as real, Some(now), None))
  {
    if n > 0 {
      var e := Entry(tokens, Some(now), None);
      assert Copies(now, n)[1..] == Copies(now, n - 1);
      var (e1, d) := Step(c, e, now);
      AllAllowedCons(d, EntryRun(c, e1, Copies(now, n - 1)).1);
      if tokens >= 1.0 {
        AtOnce(c, tokens - 1.0, now, n - 1);
      }
    }
  }

  lemma {:induction false} EntryRunConcat(c: Config, e: Entry, a: seq<real>, b: seq<real>)
    ensures EntryRun(c, e, a + b) ==
            var (e1, ds1) := EntryRun(c, e, a);
            var (e2, ds2) := EntryRun(c, e1, b);
            (e2, ds1 + ds2)
    decreases |a|
  {
    hide Step;
    if a == [] {
      assert a + b == b;
      assert [] + EntryRun(c, e, b).1 == EntryRun(c, e, b).1;
    } else {
      assert (a + b)[1..] == a[1..] + b;
      var (e0, d) := Step(c, e, a[0]);
      EntryRunConcat(c, e0, a[1..], b);
      var (e1, ds1) := EntryRun(c, e0, a[1..]);
      assert [d] + (ds1 + EntryRun(c, e1, b).1) == ([d] + ds1) + EntryRun(c, e1, b).1;
    }
  }

  lemma {:induction false} ShardRunConcat(c: Config, s: Shard, id: string, a: seq<real>, b: seq<real>)
    ensures ShardRun(c, s, id, a + b) ==
            var (s1, ds1) := ShardRun(c, s, id, a);
            var (s2, ds2) := ShardRun(c, s1, id, b);
            (s2, ds1 + ds2)
    decreases |a|
  {
    hide EvaluateShard;
    if a == [] {
      assert a + b == b;
      assert [] + ShardRun(c, s, id, b).1 == ShardRun(c, s, id, b).1;
    } else {
      assert (a + b)[1..] == a[1..] + b;
      var (s0, d) := EvaluateShard(c, s, id, a[0]);
      ShardRunConcat(c, s0, id, a[1..], b);
      var (s1, ds1) := ShardRun(c, s0, id, a[1..]);
      assert [d] + (ds1 + ShardRun(c, s1, id, b).1) == ([d] + ds1) + ShardRun(c, s1, id, b).1;
    }
  }

  /** A shard that was just cleaned behaves like the one bucket. */
  lemma {:induction false} ShardAtOnce(c: Config, s: Shard, id: string, now: real, n: nat)
    requires After(s.nextCleanup, now) && id in s.entries
    ensures var (e, ds) := EntryRun(c, s.entries[id], Copies(now, n));
            ShardRun(c, s, id, Copies(now, n)) == (Shard(s.entries[id := e], s.nextCleanup), ds)
    decreases n
  {
    hide Step;
    if n == 0 {
      assert s.entries[id := s.entries[id]] == s.entries;
    } else {
      assert Copies(now, n)[1..] == Copies(now, n - 1);
      var e1 := Step(c, s.entries[id], now).0;
      var s1 := Shard(s.entries[id := e1], s.nextCleanup);
      ShardAtOnce(c, s1, id, now, n - 1);
      var e := EntryRun(c, e1, Copies(now, n - 1)).0;
      assert s1.entries[id := e] == s.entries[id := e];
    }
  }

  /** A shard that does not know the client after its cleanup admits a whole burst. */
  lemma {:induction false} ShardBurst(c: Config, s: Shard, id: string, now: real)
    requires Positive(c) && !After(s.nextCleanup, now) && id !in Cleaned(c, s, now).entries
    ensures var (s', ds) := ShardRun(c, s, id, Copies(now, c.burst));
            && AllAllowed(ds) && s'.nextCleanup == Some(now + CLEANUP_INTERVAL)
            && id in s'.entries && s'.entries[id] == Entry(0.0, Some(now), None)
  {
    var n := c.burst - 1;
    assert Copies(now, c.burst)[1..] == Copies(now, n);
    var (s1, d) := EvaluateShard(c, s, id, now);
    assert s1.entries[id] == Entry(n as real, Some(now), None) && d.allowed;
    ShardAtOnce(c, s1, id, now, n);
    AtOnce(c, n as real, now, n);
    AllAllowedCons(d, ShardRun(c, s1, id, Copies(now, n)).1);
  }

  lemma {:induction false} EntryBurst(c: Config, now: real)
    requires Positive(c)
    ensures EntryRun(c, NewEntry(c), Copies(now, c.burst)).0 == Entry(0.0, Some(now), None)
  {
    var n := c.burst - 1;
    assert Copies(now, c.burst)[1..] == Copies(now, n);
    assert Step(c, NewEntry(c), now).0 == Entry(n as real, Some(now), None);
    AtOnce(c, n as real, now, n);
  }

  /** A time by which an idle bucket has been dropped but is not full yet. */
  lemma {:induction false} TooEarly(c: Config) returns (t: real)
    requires Positive(c) && c.burst > c.requestsPerSecond * EntryTTL(c)
    ensures t > EntryTTL(c) as real && Gain(t, c.requestsPerSecond) < c.burst as real
  {
    var r, ttl, b := c.requestsPerSecond as real, EntryTTL(c) as real, c.burst as real;
    assert r * ttl == (c.requestsPerSecond * EntryTTL(c)) as real < b;
    var full := b / r;
    assert full * r == b;
    assert (full - ttl) * r > 0.0;
    assert full - ttl > 0.0;
    t := (ttl + full) / 2.0;
    assert t < full;
    assert (full - t) * r > 0.0;
    assert full * r - t * r == (full - t) * r;
  }

  /** When a bucket takes longer to fill than an idle one is kept, eviction
      shows for every client: emptying its bucket twice, a little more than the
      TTL apart, it is served by the sharded throttle and blocked by the plain map. */
  lemma {:induction false} EvictionShows(c: Config, hash: string -> nat, id: string) returns (reqs: seq<Request>)
    requires id != ""
    requires Positive(c) && c.burst > c.requestsPerSecond * EntryTTL(c)
    ensures Monotone(reqs, 0.0)
    ensures forall i :: 0 <= i < |reqs| ==> reqs[i].id == id
    ensures ShardedRun(c, hash, NoShards(), reqs) != PlainRun(c, map[], reqs)
  {
    hide ShardRun, EntryRun, Step, EvaluateShard, ShardedRun, PlainRun, Gain, AllAllowed;
    var t := TooEarly(c);
    GainPositive(t, c.requestsPerSecond);
    var times := Copies(0.0, c.burst) + Copies(t, c.burst);
    reqs := Requests(id, times);
    ShardedServes(c, hash, id, t);
    PlainBlocks(c, id, t);
  }

  lemma {:induction false} AllAllowedConcat(a: seq<Decision>, b: seq<Decision>)
    ensures AllAllowed(a + b) <==> AllAllowed(a) && AllAllowed(b)
  {
    if AllAllowed(a + b) {
      assert forall i :: 0 <= i < |a| ==> a[i] == (a + b)[i];
      assert forall i :: 0 <= i < |b| ==> b[i] == (a + b)[|a| + i];
    }
  }

  lemma {:induction false} ShardedServes(c: Config, hash: string -> nat, id: string, t: real)
    requires id != "" && Positive(c) && t > EntryTTL(c) as real
    ensures AllAllowed(ShardedRun(c, hash, NoShards(), Requests(id, Copies(0.0, c.burst) + Copies(t, c.burst))))
  {
    hide ShardRun, EvaluateShard, ShardedRun, AllAllowed;
    var first, second := Copies(0.0, c.burst), Copies(t, c.burst);
    ShardedRunOfOne(c, hash, NoShards(), id, first + second);
    ShardRunConcat(c, EMPTY_SHARD, id, first, second);
    ShardBurst(c, EMPTY_SHARD, id, 0.0);
    var (s, ds) := ShardRun(c, EMPTY_SHARD, id, first);
    ShardBurst(c, s, id, t);
    AllAllowedConcat(ds, ShardRun(c, s, id, second).1);
  }

  lemma {:induction false} PlainBlocks(c: Config, id: string, t: real)
    requires id != "" && Positive(c) && t > 0.0 && 0.0 <= Gain(t, c.requestsPerSecond) < c.burst as real
    ensures !AllAllowed(PlainRun(c, map[], Requests(id, Copies(0.0, c.burst) + Copies(t, c.burst))))
  {
    hide EntryRun, Step, PlainRun, AllAllowed, Gain;
    var first, second := Copies(0.0, c.burst), Copies(t, c.burst);
    var reqs := Requests(id, first + second);
    PlainRunProjects(c, map[], reqs, id);
    TimesOfOne(id, first + second);
    DecisionsOfOne(id, first + second, PlainRun(c, map[], reqs));
    EntryRunConcat(c, NewEntry(c), first, second);
    EntryBurst(c, 0.0);
    LateBurst(c, t);
    var (e, ds) := EntryRun(c, NewEntry(c), first);
    AllAllowedConcat(ds, EntryRun(c, e, second).1);
  }

  lemma {:induction false} LateBurst(c: Config, t: real)
    requires Positive(c) && t > 0.0 && 0.0 <= Gain(t, c.requestsPerSecond) < c.burst as real
    ensures !AllAllowed(EntryRun(c, Entry(0.0, Some(0.0), None), Copies(t, c.burst)).1)
  {
    hide Gain;
    var e := Entry(0.0, Some(0.0), None);
    var tokens, n := Gain(t, c.requestsPerSecond), c.burst - 1;
    assert Copies(t, c.burst)[1..] == Copies(t, n);
    assert t - 0.0 == t;
    assert Refilled(c, e, t) == tokens;
    var (e1, d) := Step(c, e, t);
    AllAllowedCons(d, EntryRun(c, e1, Copies(t, n)).1);
    if tokens >= 1.0 {
      AtOnce(c, tokens - 1.0, t, n);
    }
  }

  lemma TTLIs(c: Config)
    ensures EntryTTL(c) == if c.blockSeconds * 2 < 120 then 120 else c.blockSeconds * 2
  {
  }

  /** Shards and eviction are invisible to every run exactly when a burst is at
      most what accrues over the time an idle bucket is kept. */
  lemma {:induction false} InvisibleExactlyWhen(c: Config, hash: string -> nat)
    requires Positive(c)
    ensures (forall reqs :: Monotone(reqs, 0.0) ==> ShardedRun(c, hash, NoShards(), reqs) == PlainRun(c, map[], reqs))
            <==> c.burst <= c.requestsPerSecond * (if c.blockSeconds * 2 < 120 then 120 else c.blockSeconds * 2)
  {
    TTLIs(c);
    hide ShardedRun, PlainRun, EntryTTL;
    if c.burst <= c.requestsPerSecond * EntryTTL(c) {
      forall reqs | Monotone(reqs, 0.0)
        ensures ShardedRun(c, hash, NoShards(), reqs) == PlainRun(c, map[], reqs)
      {
        RunRefines(c, hash, NoShards(), map[], 0.0, reqs);
      }
    } else {
      var reqs := EvictionShows(c, hash, "a");
    }
  }

  // ------------------------------------------------------------------
  // How much one client gets
  // ------------------------------------------------------------------

  ghost function Admitted(ds: seq<Decision>): nat {
    if ds == [] then 0 else (if ds[0].allowed then 1 else 0) + Admitted(ds[1..])
  }

  ghost function NewBlocks(ds: seq<Decision>): nat {
    if ds == [] then 0 else (if ds[0].newlyBlocked then 1 else 0) + NewBlocks(ds[1..])
  }

  /** Requests that find a block expired. */
  ghost function CompletedBlocks(c: Config, e: Entry, times: seq<real>): nat
    decreases |times|
  {
    if times == [] then 0
    else (if e.blockedUntil.Some? && !After(e.blockedUntil, times[0]) then 1 else 0)
         + CompletedBlocks(c, Step(c, e, times[0]).0, times[1..])
  }

  ghost predicate Ascending(times: seq<real>, from: real) {
    forall i :: 0 <= i < |times| ==> from <= times[i] && forall j :: i <= j < |times| ==> times[i] <= times[j]
  }

  /** One request: what it takes and leaves is covered by what was there, the
      time since the last one, and a full bucket after a block. */
  lemma {:induction false} StepPays(c: Config, e: Entry, now: real)
    requires Positive(c) && Healthy(c, e) && (e.lastSeen.Some? ==> e.lastSeen.value <= now)
    ensures var (e', d) := Step(c, e, now);
            var ended := e.blockedUntil.Some? && !After(e.blockedUntil, now);
            var idle := if e.lastSeen.Some? then now - e.lastSeen.value else 0.0;
            (if d.allowed then 1.0 else 0.0) + e'.tokens
              <= e.tokens + (if ended then c.burst as real else 0.0) + Gain(idle, c.requestsPerSecond)
  {
    hide Gain;
    var idle := if e.lastSeen.Some? then now - e.lastSeen.value else 0.0;
    GainPositive(idle, c.requestsPerSecond);
  }

  lemma {:induction false} GainAdds(a: real, b: real, rps: int)
    ensures Gain(a + b, rps) == Gain(a, rps) + Gain(b, rps)
  {
  }

  lemma {:induction false} CreditAdds(burst: int, j: nat, k: nat)
    ensures (burst * (j + k)) as real == (burst * j) as real + (burst * k) as real
  {
    assert burst * (j + k) == burst * j + burst * k;
  }

  /** One request in front of a run. */
  lemma {:induction false} RunStep(c: Config, e: Entry, times: seq<real>)
    requires times != []
    ensures var (e1, d) := Step(c, e, times[0]);
            var ended := if e.blockedUntil.Some? && !After(e.blockedUntil, times[0]) then 1 else 0;
            && EntryRun(c, e, times).0 == EntryRun(c, e1, times[1..]).0
            && Admitted(EntryRun(c, e, times).1) ==
                 (if d.allowed then 1 else 0) + Admitted(EntryRun(c, e1, times[1..]).1)
            && NewBlocks(EntryRun(c, e, times).1) ==
                 (if d.newlyBlocked then 1 else 0) + NewBlocks(EntryRun(c, e1, times[1..]).1)
            && CompletedBlocks(c, e, times) == ended + CompletedBlocks(c, e1, times[1..])
  {
    hide Step;
    var (e1, d) := Step(c, e, times[0]);
    var ds := EntryRun(c, e1, times[1..]).1;
    assert ([d] + ds)[1..] == ds;
  }

  lemma {:induction false} NoTimes(c: Config, e: Entry)
    ensures EntryRun(c, e, []) == (e, []) && Admitted([]) == 0 == NewBlocks([]) && CompletedBlocks(c, e, []) == 0
  {
  }

  /** The potential argument over a run. */
  lemma {:induction false} RunPays(c: Config, e: Entry, times: seq<real>, from: real)
    requires Positive(c) && Healthy(c, e) && times != [] && Ascending(times, from)
    requires from == if e.lastSeen.Some? then e.lastSeen.value else times[0]
    ensures var (e', ds) := EntryRun(c, e, times);
            Admitted(ds) as real + e'.tokens
              <= e.tokens + (c.burst * CompletedBlocks(c, e, times)) as real
                 + Gain(times[|times| - 1] - from, c.requestsPerSecond)
    decreases |times|
  {
    hide Gain, Step, EntryRun, CompletedBlocks, Admitted, NewBlocks;
    var now, last, rest := times[0], times[|times| - 1], times[1..];
    var (e1, d) := Step(c, e, now);
    StepPays(c, e, now);
    StepSound(c, e, now);
    RunStep(c, e, times);
    var ended := if e.blockedUntil.Some? && !After(e.blockedUntil, now) then 1 else 0;
    CreditAdds(c.burst, ended, CompletedBlocks(c, e1, rest));
    if rest == [] {
      NoTimes(c, e1);
    } else {
      StepSeen(c, e, now);
      assert rest[|rest| - 1] == last;
      RunPays(c, e1, rest, now);
      GainAdds(now - from, last - now, c.requestsPerSecond);
      assert now - from + (last - now) == last - from;
    }
  }

  lemma StepSeen(c: Config, e: Entry, now: real)
    ensures Step(c, e, now).0.lastSeen == Some(now)
  {
  }

  /** What a request does to the block. */
  lemma StepBlock(c: Config, e: Entry, now: real)
    ensures var (e', d) := Step(c, e, now);
            && (After(e.blockedUntil, now) ==> e'.blockedUntil == e.blockedUntil && !d.newlyBlocked)
            && (!After(e.blockedUntil, now) ==>
                  e'.blockedUntil == if d.newlyBlocked then Some(now + c.blockSeconds as real) else None)
  {
  }

  /** A block lasts its full time: k of them ended need k times BlockSeconds. */
  lemma {:induction false} BlocksTakeTime(c: Config, e: Entry, times: seq<real>, from: real)
    requires Positive(c) && times != [] && Ascending(times, from)
    requires e.blockedUntil.Some? ==> e.blockedUntil.value - c.blockSeconds as real <= from
    ensures var since := if e.blockedUntil.Some? then e.blockedUntil.value - c.blockSeconds as real else from;
            (c.blockSeconds * CompletedBlocks(c, e, times)) as real <= times[|times| - 1] - since
    decreases |times|
  {
    hide Step, EntryRun, CompletedBlocks;
    var now, rest := times[0], times[1..];
    var e1 := Step(c, e, now).0;
    StepBlock(c, e, now);
    RunStep(c, e, times);
    var ended := if e.blockedUntil.Some? && !After(e.blockedUntil, now) then 1 else 0;
    CreditAdds(c.blockSeconds, ended, CompletedBlocks(c, e1, rest));
    if rest == [] {
      NoTimes(c, e1);
    } else {
      assert rest[|rest| - 1] == times[|times| - 1];
      BlocksTakeTime(c, e1, rest, now);
    }
  }

  /** NewlyBlocked is reported once for every block, ended or still on. */
  lemma {:induction false} OnceBlocked(c: Config, e: Entry, times: seq<real>)
    ensures var (e', ds) := EntryRun(c, e, times);
            NewBlocks(ds) + (if e.blockedUntil.Some? then 1 else 0)
              == CompletedBlocks(c, e, times) + (if e'.blockedUntil.Some? then 1 else 0)
    decreases |times|
  {
    hide Step, EntryRun, CompletedBlocks, NewBlocks;
    if times == [] {
      NoTimes(c, e);
    } else {
      StepBlock(c, e, times[0]);
      RunStep(c, e, times);
      OnceBlocked(c, Step(c, e, times[0]).0, times[1..]);
    }
  }

  /** While a bucket is blocked nothing is admitted and no new block is reported. */
  lemma {:induction false} BlockedUntilThen(c: Config, e: Entry, times: seq<real>, i: nat)
    requires e.blockedUntil.Some? && i < |times|
    requires forall j :: 0 <= j <= i ==> times[j] < e.blockedUntil.value
    ensures i < |EntryRun(c, e, times).1|
    ensures EntryRun(c, e, times).1[i] == Decision(false, false, e.blockedUntil)
    decreases i
  {
    if i > 0 {
      assert forall j :: 0 <= j <= i - 1 ==> times[1..][j] == times[j + 1];
      BlockedUntilThen(c, e.(lastSeen := Some(times[0])), times[1..], i - 1);
    }
  }

  /** Whatever the run, a client gets at most Burst*(1+k) + RPS*(t-t0) requests
      admitted by the sharded throttle from its first request at t0 to its last
      at t, where k blocks ended meanwhile; these took k*BlockSeconds, and
      NewlyBlocked was reported once per block. */
  lemma {:induction false} AdmissionBound(c: Config, hash: string -> nat, reqs: seq<Request>, id: string)
    requires id != "" && Positive(c) && c.burst <= c.requestsPerSecond * EntryTTL(c)
    requires Monotone(reqs, 0.0) && TimesOf(reqs, id) != []
    ensures var times, run := TimesOf(reqs, id), ShardedRun(c, hash, NoShards(), reqs);
            var window := times[|times| - 1] - times[0];
            var k := CompletedBlocks(c, NewEntry(c), times);
            && |run| == |reqs|
            && var ds := DecisionsOf(reqs, run, id);
               && Admitted(ds) as real <= (c.burst * (1 + k)) as real + Gain(window, c.requestsPerSecond)
               && (c.blockSeconds * k) as real <= window
               && k <= NewBlocks(ds) <= k + 1
  {
    hide ShardedRun, PlainRun, EntryRun, EntryTTL, Gain, CompletedBlocks;
    var times := TimesOf(reqs, id);
    RunRefines(c, hash, NoShards(), map[], 0.0, reqs);
    PlainRunProjects(c, map[], reqs, id);
    TimesAscend(reqs, id, 0.0);
    assert Ascending(times, times[0]);
    RunPays(c, NewEntry(c), times, times[0]);
    BlocksTakeTime(c, NewEntry(c), times, times[0]);
    OnceBlocked(c, NewEntry(c), times);
    EntryRunSound(c, NewEntry(c), times);
  }

  lemma {:induction false} EntryRunSound(c: Config, e: Entry, times: seq<real>)
    requires Positive(c) && Healthy(c, e)
    ensures Healthy(c, EntryRun(c, e, times).0)
    decreases |times|
  {
    hide Step;
    if times != [] {
      StepSound(c, e, times[0]);
      EntryRunSound(c, Step(c, e, times[0]).0, times[1..]);
    }
  }

  lemma {:induction false} TimesAscend(reqs: seq<Request>, id: string, from: real)
    requires Monotone(reqs, from)
    ensures Ascending(TimesOf(reqs, id), from)
    decreases |reqs|
  {
    if reqs != [] {
      assert Monotone(reqs[1..], reqs[0].now);
      TimesAscend(reqs[1..], id, reqs[0].now);
    }
  }

  /** Requests without an identity are always admitted, whatever the others do. */
  lemma {:induction false} NoIdentityNoLimit(c: Config, hash: string -> nat, shards: Shards, reqs: seq<Request>)
    ensures var run := ShardedRun(c, hash, shards, reqs);
            |run| == |reqs| && forall i :: 0 <= i < |reqs| && reqs[i].id == "" ==> run[i] == ALLOWED
    decreases |reqs|
  {
    hide EvaluateShard;
    if reqs != [] {
      NoIdentityNoLimit(c, hash, EvaluateShards(c, hash, shards, reqs[0].id, reqs[0].now).0, reqs[1..]);
    }
  }

  /** The client's bucket is kept and blocked until some time. */
  ghost predicate BlockedIn(hash: string -> nat, shards: Shards, id: string, until: real) {
    var entries := shards[ShardOf(hash, id)].entries;
    id in entries && entries[id].blockedUntil == Some(until)
  }

  /** A cleanup never drops a blocked bucket, so no request before the time ends the block. */
  lemma BlockStays(c: Config, hash: string -> nat, shards: Shards, req: Request, id: string, until: real)
    requires BlockedIn(hash, shards, id, until) && req.now < until
    ensures var (after, d) := EvaluateShards(c, hash, shards, req.id, req.now);
            && BlockedIn(hash, after, id, until)
            && (req.id == id && id != "" && c.enabled ==> d == Decision(false, false, Some(until)))
  {
    hide Refilled, EntryTTL;
  }

  lemma RefusalBlocks(c: Config, hash: string -> nat, shards: Shards, req: Request)
    ensures var (after, d) := EvaluateShards(c, hash, shards, req.id, req.now);
            !d.allowed ==>
              c.enabled && req.id != "" && d.blockedUntil.Some? && BlockedIn(hash, after, req.id, d.blockedUntil.value)
  {
    hide Refilled, Cleaned;
  }

  lemma {:induction false} WhileBlocked(c: Config, hash: string -> nat, shards: Shards, reqs: seq<Request>, until: real,
                                        j: nat)
    requires j < |reqs| && c.enabled && reqs[j].id != "" && BlockedIn(hash, shards, reqs[j].id, until)
    requires forall k :: 0 <= k <= j ==> reqs[k].now < until
    ensures var run := ShardedRun(c, hash, shards, reqs);
            |run| == |reqs| && run[j] == Decision(false, false, Some(until))
    decreases |reqs|
  {
    hide EvaluateShards, BlockedIn;
    BlockStays(c, hash, shards, reqs[0], reqs[j].id, until);
    var after := EvaluateShards(c, hash, shards, reqs[0].id, reqs[0].now).0;
    NoIdentityNoLimit(c, hash, shards, reqs);
    if j > 0 {
      WhileBlocked(c, hash, after, reqs[1..], until, j - 1);
    }
  }

  /** In every mixed run, from any state of the shards and for any configuration: once a client is
      refused until some time, each of its requests before that time is refused too, with the same
      time and no new report. */
  lemma {:induction false} ClientStaysBlocked(c: Config, hash: string -> nat, shards: Shards, reqs: seq<Request>,
                                              from: real, i: nat, j: nat)
    requires Monotone(reqs, from) && i < j < |reqs| && reqs[i].id == reqs[j].id
    ensures var run := ShardedRun(c, hash, shards, reqs);
            && |run| == |reqs|
            && (!run[i].allowed ==>
                  && run[i].blockedUntil.Some?
                  && (reqs[j].now < run[i].blockedUntil.value ==>
                        run[j] == Decision(false, false, run[i].blockedUntil)))
    decreases |reqs|
  {
    hide EvaluateShards, BlockedIn;
    var (after, d) := EvaluateShards(c, hash, shards, reqs[0].id, reqs[0].now);
    NoIdentityNoLimit(c, hash, shards, reqs);
    assert Monotone(reqs[1..], reqs[0].now);
    if i > 0 {
      ClientStaysBlocked(c, hash, after, reqs[1..], reqs[0].now, i - 1, j - 1);
    } else {
      RefusalBlocks(c, hash, shards, reqs[0]);
      if !d.allowed && reqs[j].now < d.blockedUntil.value {
        WhileBlocked(c, hash, after, reqs[1..], d.blockedUntil.value, j - 1);
      }
    }
  }
}
