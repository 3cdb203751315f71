/** When the throttle lets a request in (pkg/proxy/reverse_proxy_throttle.go:91-210). */
module ThrottleLaws {
  // A client's requests since its last block are admitted exactly while no stretch of them is more
  // than a burst and what accrues over it. The bucket itself does not occur in the results.

  import opened Bytes
  import opened Throttle

  /** Every stretch of requests up to the last one is at most a burst and what accrues over it. */
  ghost predicate Fits(c: Config, times: seq<real>) {
    forall k :: 0 <= k < |times| ==> StretchFits(c, times, k)
  }

  ghost predicate StretchFits(c: Config, times: seq<real>, k: nat)
    requires k < |times|
  {
    (|times| - k) as real <= c.burst as real + (times[|times| - 1] - times[k]) * c.requestsPerSecond as real
  }

  // ------------------------------------------------------------------
  // One bucket
  // ------------------------------------------------------------------

  /** What a burst and the time since request `k` leave after the requests from `k` on. */
  ghost function Remaining(c: Config, times: seq<real>, k: nat): real
    requires k < |times|
  {
    c.burst as real + Gain(times[|times| - 1] - times[k], c.requestsPerSecond) - (|times| - k) as real
  }

  /** The tokens left are the least remainder over all stretches. */
  ghost predicate Tight(c: Config, times: seq<real>, tokens: real) {
    && (forall k :: 0 <= k < |times| ==> tokens <= Remaining(c, times, k))
    && exists k :: 0 <= k < |times| && tokens == Remaining(c, times, k)
  }

  lemma RemainingNext(c: Config, times: seq<real>, t: real, k: nat)
    requires k < |times|
    ensures Remaining(c, times + [t], k)
            == Remaining(c, times, k) + Gain(t - times[|times| - 1], c.requestsPerSecond) - 1.0
  {
    hide Gain;
    var next := times + [t];
    assert next[k] == times[k] && next[|next| - 1] == t;
    GainAdds(times[|times| - 1] - times[k], t - times[|times| - 1], c.requestsPerSecond);
  }

  lemma RemainingLast(c: Config, times: seq<real>, t: real)
    ensures Remaining(c, times + [t], |times|) == c.burst as real - 1.0
  {
    hide Gain;
    NoGain(c);
  }

  lemma NoGain(c: Config)
    ensures Gain(0.0, c.requestsPerSecond) == 0.0
  {
  }

  lemma FitsMeans(c: Config, times: seq<real>)
    ensures Fits(c, times) <==> forall k :: 0 <= k < |times| ==> Remaining(c, times, k) >= 0.0
  {
    hide Remaining, StretchFits;
    forall k | 0 <= k < |times| ensures StretchFits(c, times, k) <==> Remaining(c, times, k) >= 0.0 {
      StretchMeans(c, times, k);
    }
  }

  lemma StretchMeans(c: Config, times: seq<real>, k: nat)
    requires k < |times|
    ensures StretchFits(c, times, k) <==> Remaining(c, times, k) >= 0.0
  {
  }

  /** One more request, with what accrued since the last one. */
  lemma TightNext(c: Config, times: seq<real>, t: real, tokens: real, more: real)
    requires times != [] && Tight(c, times, tokens) && c.burst >= 1
    requires var gained := tokens + Gain(t - times[|times| - 1], c.requestsPerSecond);
             more == if gained > c.burst as real then c.burst as real else gained
    ensures Fits(c, times + [t]) <==> more >= 1.0
    ensures Tight(c, times + [t], more - 1.0)
  {
    hide Remaining, Fits, Gain;
    var next := times + [t];
    FitsMeans(c, next);
    RemainingLast(c, times, t);
    forall k | 0 <= k < |times|
      ensures Remaining(c, next, k)
              == Remaining(c, times, k) + Gain(t - times[|times| - 1], c.requestsPerSecond) - 1.0
    {
      RemainingNext(c, times, t, k);
    }
    var least :| 0 <= least < |times| && tokens == Remaining(c, times, least);
    var gained := tokens + Gain(t - times[|times| - 1], c.requestsPerSecond);
    assert Remaining(c, next, least) == gained - 1.0;
    assert forall k :: 0 <= k < |times| ==> Remaining(c, next, k) >= gained - 1.0;
    if gained > c.burst as real {
      assert Remaining(c, next, |times|) == more - 1.0;
    } else {
      assert Remaining(c, next, least) == more - 1.0;
    }
  }

  /** A bucket that is full for a request at `now`. */
  ghost predicate Full(c: Config, e: Entry, now: real) {
    !(e.blockedUntil.Some? && e.blockedUntil.value > now) && Refilled(c, e, now) == c.burst as real
  }

  lemma TightFirst(c: Config, t: real)
    ensures Tight(c, [t], c.burst as real - 1.0)
    ensures Fits(c, [t]) <==> c.burst >= 1
  {
    hide Remaining, Fits;
    FitsMeans(c, [t]);
    RemainingLast(c, [], t);
    assert [] + [t] == [t];
    assert Remaining(c, [t], 0) == c.burst as real - 1.0;
  }

  /** What requests admitted since the bucket was full leave. */
  lemma {:induction false} AdmittedSince(c: Config, e: Entry, times: seq<real>)
    requires Positive(c) && times != [] && Ascending(times, times[0]) && Full(c, e, times[0])
    requires AllAllowed(EntryRun(c, e, times).1)
    ensures var after := EntryRun(c, e, times).0;
            && after.blockedUntil == None && after.lastSeen == Some(times[|times| - 1])
            && Tight(c, times, after.tokens)
    decreases |times|
  {
    hide Tight, Refilled, AllAllowed, Gain;
    var n := |times| - 1;
    var front, t := times[..n], times[n];
    assert times == front + [t];
    EntryRunConcat(c, e, front, [t]);
    var (before, ds) := EntryRun(c, e, front);
    AllAllowedConcat(ds, EntryRun(c, before, [t]).1);
    RunOfOne(c, before, t);
    AllAllowedOne(Step(c, before, t).1);
    if n == 0 {
      assert front == [];
      TightFirst(c, t);
    } else {
      AdmittedSince(c, e, front);
      TightBound(c, front, before.tokens);
      TightNext(c, front, t, before.tokens, RefilledSince(c, before, front[n - 1], t));
    }
  }

  lemma RunOfOne(c: Config, e: Entry, t: real)
    ensures EntryRun(c, e, [t]) == (Step(c, e, t).0, [Step(c, e, t).1])
  {
    hide Step;
    assert [t][1..] == [];
    var (after, d) := Step(c, e, t);
    assert EntryRun(c, after, []) == (after, []) && [d] + [] == [d];
  }

  lemma TightBound(c: Config, times: seq<real>, tokens: real)
    requires Tight(c, times, tokens)
    ensures tokens <= c.burst as real - 1.0
  {
    hide Gain;
    NoGain(c);
    assert Remaining(c, times, |times| - 1) == c.burst as real - 1.0;
  }

  lemma AllAllowedOne(d: Decision)
    ensures AllAllowed([d]) <==> d.allowed
  {
    assert [d][0] == d;
  }

  /** The tokens of an unblocked bucket, refilled. */
  ghost function RefilledSince(c: Config, e: Entry, last: real, t: real): (more: real)
    requires c.burst >= 1 && e.blockedUntil == None && e.lastSeen == Some(last) && last <= t
    requires e.tokens <= c.burst as real
    ensures more == Refilled(c, e, t)
    ensures var gained := e.tokens + Gain(t - last, c.requestsPerSecond);
            more == if gained > c.burst as real then c.burst as real else gained
  {
    hide Gain;
    NoGain(c);
    Refilled(c, e, t)
  }

  /** A request since the bucket was full is admitted exactly when the stretches fit. */
  lemma NextSince(c: Config, e: Entry, times: seq<real>, t: real)
    requires Positive(c) && Ascending(times + [t], (times + [t])[0]) && Full(c, e, (times + [t])[0])
    requires AllAllowed(EntryRun(c, e, times).1)
    ensures Step(c, EntryRun(c, e, times).0, t).1
            == if Fits(c, times + [t]) then Decision(true, false, None)
               else Decision(false, true, Some(t + c.blockSeconds as real))
  {
    hide Fits, Tight, Refilled, AllAllowed, Gain;
    var before := EntryRun(c, e, times).0;
    if times == [] {
      TightFirst(c, t);
      assert times + [t] == [t];
    } else {
      assert forall i :: 0 <= i < |times| ==> times[i] == (times + [t])[i];
      assert (times + [t])[|times|] == t;
      AdmittedSince(c, e, times);
      TightBound(c, times, before.tokens);
      TightNext(c, times, t, before.tokens, RefilledSince(c, before, times[|times| - 1], t));
    }
  }

  lemma NewIsFull(c: Config, t: real)
    requires Positive(c)
    ensures Full(c, NewEntry(c), t)
  {
  }

  /** A bucket whose block has ended is full. */
  lemma EndedIsFull(c: Config, e: Entry, t: real)
    requires Positive(c) && Healthy(c, e) && e.blockedUntil.Some? && e.blockedUntil.value <= t
    ensures Full(c, e, t)
  {
    hide Gain;
    if e.lastSeen.Some? && t - e.lastSeen.value > 0.0 {
      GainPositive(t - e.lastSeen.value, c.requestsPerSecond);
    }
  }

  /** The bucket in front of a request, and the decision about it. */
  lemma EntryRunAt(c: Config, e: Entry, times: seq<real>, m: nat)
    requires m < |times|
    ensures var before := EntryRun(c, e, times[..m]).0;
            && |EntryRun(c, e, times).1| == |times|
            && |EntryRun(c, e, times[..m]).1| == m
            && EntryRun(c, e, times).1[m] == Step(c, before, times[m]).1
            && (forall k :: 0 <= k < m ==> EntryRun(c, e, times).1[k] == EntryRun(c, e, times[..m]).1[k])
            && EntryRun(c, e, times[..m + 1]).0 == Step(c, before, times[m]).0
  {
    hide Step;
    EntryRunSize(c, e, times);
    EntryRunSize(c, e, times[..m]);
    assert times == times[..m] + times[m..];
    EntryRunConcat(c, e, times[..m], times[m..]);
    assert times[..m + 1] == times[..m] + [times[m]];
    EntryRunConcat(c, e, times[..m], [times[m]]);
    RunOfOne(c, EntryRun(c, e, times[..m]).0, times[m]);
  }

  lemma {:induction false} EntryRunSize(c: Config, e: Entry, times: seq<real>)
    ensures |EntryRun(c, e, times).1| == |times|
    decreases |times|
  {
    hide Step;
    if times != [] {
      EntryRunSize(c, Step(c, e, times[0]).0, times[1..]);
    }
  }

  /** What a refusal leaves. */
  lemma RefusalRecords(c: Config, e: Entry, t: real)
    ensures var (after, d) := Step(c, e, t);
            && after.blockedUntil == d.blockedUntil && (d.allowed <==> d.blockedUntil == None)
            && after.lastSeen == Some(t)
  {
    hide Refilled;
  }

  /** Request `s` is the first one of a client, or the first one at or after the end of a block. */
  ghost predicate Begins(times: seq<real>, ds: seq<Decision>, s: nat)
    requires |ds| == |times| && s < |times|
  {
    s == 0 || (!ds[s - 1].allowed && ds[s - 1].blockedUntil.Some? && ds[s - 1].blockedUntil.value <= times[s])
  }

  lemma {:induction false} OneClient(c: Config, times: seq<real>, s: nat, m: nat)
    requires Positive(c) && s <= m < |times| && Ascending(times, times[0])
    ensures var ds := EntryRun(c, NewEntry(c), times).1;
            && |ds| == |times|
            && (Begins(times, ds, s) && (forall k :: s <= k < m ==> ds[k].allowed) ==>
                  ds[m] == if Fits(c, times[s..m + 1]) then Decision(true, false, None)
                           else Decision(false, true, Some(times[m] + c.blockSeconds as real)))
            && (m > 0 && !ds[m - 1].allowed ==>
                  && ds[m - 1].blockedUntil.Some?
                  && (times[m] < ds[m - 1].blockedUntil.value ==>
                        ds[m] == Decision(false, false, ds[m - 1].blockedUntil)))
  {
    hide Fits, Full, Step;
    var new_ := NewEntry(c);
    var ds := EntryRun(c, new_, times).1;
    EntryRunAt(c, new_, times, m);
    if m > 0 {
      EntryRunAt(c, new_, times, m - 1);
      RefusalRecords(c, EntryRun(c, new_, times[..m - 1]).0, times[m - 1]);
      BlockHolds(c, EntryRun(c, new_, times[..m]).0, times[m]);
    }
    if Begins(times, ds, s) && forall k :: s <= k < m ==> ds[k].allowed {
      Since(c, times, s, m);
    }
  }

  lemma BlockHolds(c: Config, e: Entry, t: real)
    ensures e.blockedUntil.Some? && t < e.blockedUntil.value ==>
              Step(c, e, t).1 == Decision(false, false, e.blockedUntil)
  {
  }

  lemma Since(c: Config, times: seq<real>, s: nat, m: nat)
    requires Positive(c) && s <= m < |times| && Ascending(times, times[0])
    requires |EntryRun(c, NewEntry(c), times).1| == |times|
    requires var ds := EntryRun(c, NewEntry(c), times).1;
             Begins(times, ds, s) && forall k :: s <= k < m ==> ds[k].allowed
    ensures EntryRun(c, NewEntry(c), times).1[m]
            == if Fits(c, times[s..m + 1]) then Decision(true, false, None)
               else Decision(false, true, Some(times[m] + c.blockSeconds as real))
  {
    hide Fits, Full, Step, EntryRun, Begins, Ascending;
    var new_ := NewEntry(c);
    var e, part := EntryRun(c, new_, times[..s]).0, times[s..m];
    assert times[..m] == times[..s] + part && part + [times[m]] == times[s..m + 1];
    EntryRunAt(c, new_, times, m);
    EntryRunConcat(c, new_, times[..s], part);
    PartAllowed(c, times, s, m);
    BeginsFull(c, times, s);
    PartAscends(times, s, m);
    NextSince(c, e, part, times[m]);
  }

  lemma PartAllowed(c: Config, times: seq<real>, s: nat, m: nat)
    requires s <= m < |times| && |EntryRun(c, NewEntry(c), times).1| == |times|
    requires forall k :: s <= k < m ==> EntryRun(c, NewEntry(c), times).1[k].allowed
    ensures AllAllowed(EntryRun(c, EntryRun(c, NewEntry(c), times[..s]).0, times[s..m]).1)
  {
    hide Step, EntryRun;
    var new_ := NewEntry(c);
    var e, part := EntryRun(c, new_, times[..s]).0, times[s..m];
    assert times[..m] == times[..s] + part;
    EntryRunAt(c, new_, times, m);
    EntryRunConcat(c, new_, times[..s], part);
    EntryRunSize(c, new_, times[..s]);
    EntryRunSize(c, e, part);
    var ds := EntryRun(c, e, part).1;
    forall k | 0 <= k < |ds| ensures ds[k].allowed {
      assert ds[k] == EntryRun(c, new_, times[..m]).1[s + k];
      assert EntryRun(c, new_, times).1[s + k].allowed;
    }
  }

  lemma PartAscends(times: seq<real>, s: nat, m: nat)
    requires s <= m < |times| && Ascending(times, times[0])
    ensures var part := times[s..m] + [times[m]];
            part[0] == times[s] && Ascending(part, part[0])
  {
    assert forall i :: 0 <= i <= m - s ==> (times[s..m] + [times[m]])[i] == times[s + i];
  }

  lemma BeginsFull(c: Config, times: seq<real>, s: nat)
    requires Positive(c) && s < |times| && |EntryRun(c, NewEntry(c), times).1| == |times|
    requires Begins(times, EntryRun(c, NewEntry(c), times).1, s)
    ensures Full(c, EntryRun(c, NewEntry(c), times[..s]).0, times[s])
  {
    hide Full, Step;
    var new_ := NewEntry(c);
    if s == 0 {
      assert times[..0] == [];
      NewIsFull(c, times[s]);
    } else {
      EntryRunAt(c, new_, times, s - 1);
      RefusalRecords(c, EntryRun(c, new_, times[..s - 1]).0, times[s - 1]);
      EntryRunSound(c, new_, times[..s]);
      EndedIsFull(c, EntryRun(c, new_, times[..s]).0, times[s]);
    }
  }

  /** Main result: where eviction is invisible, the decisions of the sharded throttle about a client
      are determined, in every mixed run, without its buckets. A request before the end of a
      recorded block is refused with that block. Any other one is admitted if and only if no
      stretch of the client's requests since its last block is more than a burst and what accrues
      over it, and otherwise blocks the client for the configured time. */
  lemma ClientExactly(c: Config, hash: string -> nat, reqs: seq<Request>, id: string, s: nat, m: nat)
    requires id != "" && Positive(c) && c.burst <= c.requestsPerSecond * EntryTTL(c)
    requires Monotone(reqs, 0.0) && s <= m < |TimesOf(reqs, id)|
    ensures var times, run := TimesOf(reqs, id), ShardedRun(c, hash, NoShards(), reqs);
            && |run| == |reqs|
            && var ds := DecisionsOf(reqs, run, id);
               && |ds| == |times|
               && (Begins(times, ds, s) && (forall k :: s <= k < m ==> ds[k].allowed) ==>
                     ds[m] == if Fits(c, times[s..m + 1]) then Decision(true, false, None)
                              else Decision(false, true, Some(times[m] + c.blockSeconds as real)))
               && (m > 0 && !ds[m - 1].allowed ==>
                     && ds[m - 1].blockedUntil.Some?
                     && (times[m] < ds[m - 1].blockedUntil.value ==>
                           ds[m] == Decision(false, false, ds[m - 1].blockedUntil)))
  {
    hide ShardedRun, PlainRun, EntryRun, EntryTTL, Fits, Begins, Monotone;
    RunRefines(c, hash, NoShards(), map[], 0.0, reqs);
    PlainRunProjects(c, map[], reqs, id);
    TimesAscend(reqs, id, 0.0);
    OneClient(c, TimesOf(reqs, id), s, m);
  }

  // ------------------------------------------------------------------
  // Any configuration: at least so much is admitted
  // ------------------------------------------------------------------

  /** The bucket of a client in the shards. */
  ghost function Bucket(c: Config, hash: string -> nat, shards: Shards, id: string): Entry {
    EntryOf(c, shards[ShardOf(hash, id)].entries, id)
  }

  /** A request meets the bucket it left, or a new one when a cleanup dropped that; a bucket that
      is blocked at that time is kept. */
  lemma OnRequest(c: Config, hash: string -> nat, shards: Shards, r: Request, id: string) returns (met: Entry)
    requires c.enabled
    ensures met == Bucket(c, hash, shards, id) || met == NewEntry(c)
    ensures var was := Bucket(c, hash, shards, id);
            was.blockedUntil.Some? && r.now < was.blockedUntil.value ==> met == was
    ensures var (after, d) := EvaluateShards(c, hash, shards, r.id, r.now);
            if r.id == id && id != "" then (Bucket(c, hash, after, id), d) == Step(c, met, r.now)
            else Bucket(c, hash, after, id) == met
  {
    hide Step, EntryTTL;
    var k := ShardOf(hash, id);
    if r.id == "" || ShardOf(hash, r.id) != k {
      met := Bucket(c, hash, shards, id);
    } else {
      met := EntryOf(c, Cleaned(c, shards[k], r.now).entries, id);
    }
  }

  /** At least the least remainder over all stretches is left; a new bucket is full. */
  ghost predicate Backed(c: Config, times: seq<real>, e: Entry) {
    && e.blockedUntil == None && e.tokens <= c.burst as real
    && match e.lastSeen
       case None => e.tokens == c.burst as real
       case Some(last) =>
         && times != [] && last == times[|times| - 1]
         && exists k :: 0 <= k < |times| && e.tokens >= Remaining(c, times, k)
  }

  lemma BackedNext(c: Config, times: seq<real>, e: Entry, t: real)
    requires Positive(c) && Backed(c, times, e) && (times != [] ==> times[|times| - 1] <= t)
    ensures var (after, d) := Step(c, e, t);
            && (Fits(c, times + [t]) ==> d == Decision(true, false, None))
            && (d.allowed ==> Backed(c, times + [t], after))
  {
    hide Remaining, Refilled, Fits, Gain;
    var next := times + [t];
    FitsMeans(c, next);
    RemainingLast(c, times, t);
    assert next[|next| - 1] == t;
    match e.lastSeen {
      case None =>
        assert Refilled(c, e, t) == c.burst as real by {
          NoTimePassed(c, e, t);
        }
      case Some(last) =>
        var k :| 0 <= k < |times| && e.tokens >= Remaining(c, times, k);
        RemainingNext(c, times, t, k);
        var more := RefilledSince(c, e, last, t);
        assert more == c.burst as real || more >= Remaining(c, next, k) + 1.0;
    }
  }

  lemma NoTimePassed(c: Config, e: Entry, t: real)
    requires e.blockedUntil == None && e.lastSeen == None
    ensures Refilled(c, e, t) == e.tokens
  {
  }

  /** The requests of a client from `lo` to `hi` were admitted. */
  ghost predicate Admits(reqs: seq<Request>, run: seq<Decision>, id: string, lo: nat, hi: nat) {
    forall r :: lo <= r < hi && r < |reqs| && r < |run| && reqs[r].id == id ==> run[r].allowed
  }

  /** The requests of a client from `lo` to `hi` come before some time. */
  ghost predicate Early(reqs: seq<Request>, id: string, lo: nat, hi: nat, until: real) {
    forall r :: lo <= r < hi && r < |reqs| && reqs[r].id == id ==> reqs[r].now < until
  }

  /** The same without the first request. */
  lemma Shifted(first: Request, rest: seq<Request>, d: Decision, later: seq<Decision>, id: string, lo: nat, hi: nat,
                until: real)
    requires lo >= 1 && hi >= 1
    ensures Admits([first] + rest, [d] + later, id, lo, hi) ==> Admits(rest, later, id, lo - 1, hi - 1)
    ensures Early([first] + rest, id, lo, hi, until) ==> Early(rest, id, lo - 1, hi - 1, until)
  {
    var reqs, run := [first] + rest, [d] + later;
    assert forall r :: 0 <= r < |rest| ==> rest[r] == reqs[r + 1];
    assert forall r :: 0 <= r < |later| ==> later[r] == run[r + 1];
  }

  lemma TimesOfCons(reqs: seq<Request>, r: Request, id: string)
    ensures TimesOf([r] + reqs, id) == (if r.id == id then [r.now] else []) + TimesOf(reqs, id)
  {
    assert ([r] + reqs)[1..] == reqs;
  }

  /** Requests of a client whose bucket is backed by those admitted before. */
  lemma {:induction false} ServedFrom(c: Config, hash: string -> nat, shards: Shards, reqs: seq<Request>, from: real,
                                      id: string, times: seq<real>, q: nat)
    requires Positive(c) && id != "" && Monotone(reqs, from) && q < |reqs| && reqs[q].id == id
    requires Backed(c, times, Bucket(c, hash, shards, id)) && (times != [] ==> times[|times| - 1] <= from)
    ensures var run := ShardedRun(c, hash, shards, reqs);
            && |run| == |reqs|
            && (Admits(reqs, run, id, 0, q) && Fits(c, times + TimesOf(reqs[..q + 1], id)) ==>
                  run[q] == Decision(true, false, None))
    decreases |reqs|
  {
    hide Fits, Backed, Bucket, Step, EvaluateShards, Admits, TimesOf, ShardedRun, Monotone;
    var first, rest := reqs[0], reqs[1..];
    var (after, d) := EvaluateShards(c, hash, shards, first.id, first.now);
    var later := ShardedRun(c, hash, after, rest);
    RunOpens(c, hash, shards, reqs, from);
    var met := OnRequest(c, hash, shards, first, id);
    NewIsBacked(c, times);
    if q == 0 {
      OneRequest(first, reqs[..1]);
      BackedNext(c, times, met, first.now);
    } else {
      assert reqs[..q + 1] == [first] + rest[..q];
      TimesOfCons(rest[..q], first, id);
      Shifted(first, rest, d, later, id, 1, q, 0.0);
      FirstAdmitted(reqs, [d] + later, id, q);
      if first.id != id {
        assert [] + TimesOf(rest[..q], id) == TimesOf(rest[..q], id);
        ServedFrom(c, hash, after, rest, first.now, id, times, q - 1);
      } else if d.allowed {
        BackedNext(c, times, met, first.now);
        assert times + ([first.now] + TimesOf(rest[..q], id)) == (times + [first.now]) + TimesOf(rest[..q], id);
        ServedFrom(c, hash, after, rest, first.now, id, times + [first.now], q - 1);
      }
    }
  }

  lemma FirstAdmitted(reqs: seq<Request>, run: seq<Decision>, id: string, q: nat)
    requires 0 < q < |reqs| && |run| == |reqs|
    ensures Admits(reqs, run, id, 0, q) <==> (reqs[0].id == id ==> run[0].allowed) && Admits(reqs, run, id, 1, q)
  {
  }

  lemma OneRequest(first: Request, reqs: seq<Request>)
    requires reqs == [first]
    ensures TimesOf(reqs, first.id) == [first.now]
  {
    assert reqs[1..] == [];
  }

  /** A run, request by request. */
  lemma RunOpens(c: Config, hash: string -> nat, shards: Shards, reqs: seq<Request>, from: real)
    requires reqs != [] && Monotone(reqs, from)
    ensures var (after, d) := EvaluateShards(c, hash, shards, reqs[0].id, reqs[0].now);
            var later := ShardedRun(c, hash, after, reqs[1..]);
            && ShardedRun(c, hash, shards, reqs) == [d] + later
            && |later| == |reqs| - 1
    ensures Monotone(reqs[1..], reqs[0].now) && from <= reqs[0].now && reqs == [reqs[0]] + reqs[1..]
    ensures forall i :: 0 < i < |reqs| ==> reqs[i] == reqs[1..][i - 1]
  {
    hide EvaluateShards;
    NoIdentityNoLimit(c, hash, shards, reqs);
  }

  lemma NewIsBacked(c: Config, times: seq<real>)
    ensures Backed(c, times, NewEntry(c))
  {
  }

  /** A bucket that is blocked until some time, or was dropped at or after that time. */
  ghost predicate Waits(c: Config, e: Entry, until: real, from: real) {
    Healthy(c, e) && (e.blockedUntil == Some(until) || (e == NewEntry(c) && until <= from))
  }

  /** A request of the client before that time leaves it waiting. */
  lemma WaitsOn(c: Config, hash: string -> nat, shards: Shards, r: Request, id: string, until: real, from: real)
    requires Positive(c) && id != "" && from <= r.now && (r.id == id ==> r.now < until)
    requires Waits(c, Bucket(c, hash, shards, id), until, from)
    ensures Waits(c, Bucket(c, hash, EvaluateShards(c, hash, shards, r.id, r.now).0, id), until, r.now)
  {
    hide Bucket, Step, EvaluateShards, Healthy;
    var met := OnRequest(c, hash, shards, r, id);
    NewIsHealthy(c);
    if r.id == id {
      BlockedStep(c, met, r.now);
    }
  }

  /** After a block: the first request at or after its end, and those behind it. */
  lemma {:induction false} ServedAfter(c: Config, hash: string -> nat, shards: Shards, reqs: seq<Request>, from: real,
                                       id: string, until: real, s: nat, q: nat)
    requires Positive(c) && id != "" && Monotone(reqs, from) && s <= q < |reqs|
    requires reqs[s].id == id && reqs[q].id == id && until <= reqs[s].now && Early(reqs, id, 0, s, until)
    requires Waits(c, Bucket(c, hash, shards, id), until, from)
    ensures var run := ShardedRun(c, hash, shards, reqs);
            && |run| == |reqs|
            && (Admits(reqs, run, id, s, q) && Fits(c, TimesOf(reqs[s..q + 1], id)) ==>
                  run[q] == Decision(true, false, None))
    decreases |reqs|
  {
    hide Fits, Bucket, EvaluateShards, Admits, TimesOf, Waits, Backed, ShardedRun, Monotone, Early;
    var first, rest := reqs[0], reqs[1..];
    var (after, d) := EvaluateShards(c, hash, shards, first.id, first.now);
    var later := ShardedRun(c, hash, after, rest);
    RunOpens(c, hash, shards, reqs, from);
    if s > 0 {
      BeforeThen(reqs, id, s, until);
      WaitsOn(c, hash, shards, first, id, until, from);
      Shifted(first, rest, d, later, id, 1, s, until);
      Shifted(first, rest, d, later, id, s, q, until);
      assert rest[s - 1..q] == reqs[s..q + 1];
      ServedAfter(c, hash, after, rest, first.now, id, until, s - 1, q - 1);
    } else {
      assert reqs[0..q + 1] == reqs[..q + 1];
      ServedAtOnce(c, hash, shards, reqs, from, until, q);
    }
  }

  lemma ServedAtOnce(c: Config, hash: string -> nat, shards: Shards, reqs: seq<Request>, from: real, until: real,
                     q: nat)
    requires Positive(c) && Monotone(reqs, from) && q < |reqs|
    requires var id := reqs[0].id;
             id != "" && reqs[q].id == id && until <= reqs[0].now && Waits(c, Bucket(c, hash, shards, id), until, from)
    ensures var run, id := ShardedRun(c, hash, shards, reqs), reqs[0].id;
            && |run| == |reqs|
            && (Admits(reqs, run, id, 0, q) && Fits(c, TimesOf(reqs[..q + 1], id)) ==>
                  run[q] == Decision(true, false, None))
  {
    hide Fits, Bucket, EvaluateShards, Admits, TimesOf, Waits, Backed, ShardedRun, Monotone;
    var first, rest := reqs[0], reqs[1..];
    var (after, d) := EvaluateShards(c, hash, shards, first.id, first.now);
    var later := ShardedRun(c, hash, after, rest);
    RunOpens(c, hash, shards, reqs, from);
    FirstServed(c, hash, shards, first, until, from);
    if q > 0 {
      assert reqs[..q + 1] == [first] + rest[..q];
      TimesOfCons(rest[..q], first, first.id);
      Shifted(first, rest, d, later, first.id, 1, q, until);
      FirstAdmitted(reqs, [d] + later, first.id, q);
      ServedFrom(c, hash, after, rest, first.now, first.id, [first.now], q - 1);
    }
  }

  lemma BeforeThen(reqs: seq<Request>, id: string, s: nat, until: real)
    requires 0 < s <= |reqs| && Early(reqs, id, 0, s, until)
    ensures (reqs[0].id == id ==> reqs[0].now < until) && Early(reqs, id, 1, s, until)
  {
  }

  lemma FirstServed(c: Config, hash: string -> nat, shards: Shards, r: Request, until: real, from: real)
    requires Positive(c) && r.id != "" && from <= r.now && until <= r.now
    requires Waits(c, Bucket(c, hash, shards, r.id), until, from)
    ensures var (after, d) := EvaluateShards(c, hash, shards, r.id, r.now);
            d == Decision(true, false, None) && Backed(c, [r.now], Bucket(c, hash, after, r.id))
  {
    hide Bucket, Step, EvaluateShards, Healthy, Backed;
    var met := OnRequest(c, hash, shards, r, r.id);
    NewIsHealthy(c);
    EndedStep(c, met, until, r.now);
  }

  lemma NewIsHealthy(c: Config)
    ensures Positive(c) ==> Healthy(c, NewEntry(c))
  {
  }

  lemma BlockedStep(c: Config, e: Entry, t: real)
    requires Healthy(c, e) && e.blockedUntil.Some? && t < e.blockedUntil.value
    ensures Healthy(c, Step(c, e, t).0) && Step(c, e, t).0.blockedUntil == e.blockedUntil
  {
  }

  lemma EndedStep(c: Config, e: Entry, until: real, t: real)
    requires Positive(c) && Healthy(c, e) && until <= t && (e.blockedUntil == Some(until) || e == NewEntry(c))
    ensures Step(c, e, t).1 == Decision(true, false, None) && Backed(c, [t], Step(c, e, t).0)
  {
    hide Healthy, Refilled;
    if e.blockedUntil == Some(until) {
      EndedIsFull(c, e, t);
    } else {
      NewIsFull(c, t);
    }
    RemainingLast(c, [], t);
    assert [] + [t] == [t];
    assert Remaining(c, [t], 0) == c.burst as real - 1.0;
  }

  /** A request that meets a healthy bucket leaves one; a refused one leaves it waiting. */
  lemma HealthyOn(c: Config, hash: string -> nat, shards: Shards, r: Request, id: string)
    requires Positive(c) && id != "" && Healthy(c, Bucket(c, hash, shards, id))
    ensures var (after, d) := EvaluateShards(c, hash, shards, r.id, r.now);
            && Healthy(c, Bucket(c, hash, after, id))
            && (r.id == id && !d.allowed ==>
                  d.blockedUntil.Some? && Waits(c, Bucket(c, hash, after, id), d.blockedUntil.value, r.now))
  {
    hide Bucket, Step, EvaluateShards, Healthy;
    var met := OnRequest(c, hash, shards, r, id);
    NewIsHealthy(c);
    if r.id == id {
      StepHealthy(c, met, r.now);
      RefusalRecords(c, met, r.now);
    }
  }

  lemma StepHealthy(c: Config, e: Entry, t: real)
    requires Positive(c) && Healthy(c, e)
    ensures Healthy(c, Step(c, e, t).0)
  {
    hide Step, Healthy;
    StepSound(c, e, t);
  }

  /** Main result: for any configuration and in every mixed run of the sharded throttle, a client that
      was refused until some time is served again: with `s` its first request at or after that time, a
      request is admitted when all since then were and no stretch of these is more than a burst and
      what accrues over it. */
  lemma {:induction false} ServedAgain(c: Config, hash: string -> nat, shards: Shards, reqs: seq<Request>, from: real,
                                       p: nat, s: nat, q: nat)
    requires Positive(c) && Monotone(reqs, from) && p < s <= q < |reqs| && reqs[p].id == reqs[s].id == reqs[q].id
    requires reqs[p].id != "" && Healthy(c, Bucket(c, hash, shards, reqs[p].id))
    ensures var run, id := ShardedRun(c, hash, shards, reqs), reqs[p].id;
            && |run| == |reqs|
            && (!run[p].allowed ==> run[p].blockedUntil.Some?)
            && (!run[p].allowed && run[p].blockedUntil.value <= reqs[s].now
                && Early(reqs, id, p + 1, s, run[p].blockedUntil.value)
                && Admits(reqs, run, id, s, q) && Fits(c, TimesOf(reqs[s..q + 1], id)) ==>
                  run[q] == Decision(true, false, None))
    decreases |reqs|
  {
    hide Fits, Bucket, EvaluateShards, Healthy, Admits, Early, TimesOf, Waits, ShardedRun, Monotone;
    var first, rest, id := reqs[0], reqs[1..], reqs[p].id;
    var (after, d) := EvaluateShards(c, hash, shards, first.id, first.now);
    var later := ShardedRun(c, hash, after, rest);
    RunOpens(c, hash, shards, reqs, from);
    HealthyOn(c, hash, shards, first, id);
    assert rest[s - 1..q] == reqs[s..q + 1];
    var until := if p == 0 then d.blockedUntil else later[p - 1].blockedUntil;
    if until.Some? {
      Shifted(first, rest, d, later, id, p + 1, s, until.value);
      Shifted(first, rest, d, later, id, s, q, until.value);
    }
    if p > 0 {
      ServedAgain(c, hash, after, rest, first.now, p - 1, s - 1, q - 1);
    } else if !d.allowed && d.blockedUntil.value <= reqs[s].now
           && Early(reqs, id, 1, s, d.blockedUntil.value) {
      ServedAfter(c, hash, after, rest, first.now, id, d.blockedUntil.value, s - 1, q - 1);
    }
  }

  lemma {:induction false} TimesOfSize(reqs: seq<Request>, id: string, k: nat)
    requires k <= |reqs|
    ensures |TimesOf(reqs[..k], id)| <= |TimesOf(reqs, id)|
    decreases |reqs|
  {
    if k > 0 {
      assert reqs[..k][1..] == reqs[1..][..k - 1];
      TimesOfSize(reqs[1..], id, k - 1);
    }
  }

  /** No more requests than a burst always fit. */
  lemma BurstFits(c: Config, times: seq<real>, from: real)
    requires Positive(c) && Ascending(times, from) && |times| <= c.burst
    ensures Fits(c, times)
  {
    forall k | 0 <= k < |times|
      ensures StretchFits(c, times, k)
    {
      assert times[k] <= times[|times| - 1];
      assert (times[|times| - 1] - times[k]) * c.requestsPerSecond as real >= 0.0;
    }
  }

  lemma PartMonotone(reqs: seq<Request>, from: real, s: nat, e: nat)
    requires Monotone(reqs, from) && s <= e <= |reqs|
    ensures Monotone(reqs[s..e], from)
  {
    assert forall i :: 0 <= i < e - s ==> reqs[s..e][i] == reqs[s + i];
  }

  /** Main result: so the first request of a client at or after the end of its block is admitted, and so
      are its next requests up to a burst, whenever they come and whatever the configuration. */
  lemma {:induction false} BurstAfterBlock(c: Config, hash: string -> nat, shards: Shards, reqs: seq<Request>,
                                           from: real, p: nat, s: nat, q: nat)
    requires Positive(c) && Monotone(reqs, from) && p < s <= q < |reqs| && reqs[p].id == reqs[s].id == reqs[q].id
    requires reqs[p].id != "" && Healthy(c, Bucket(c, hash, shards, reqs[p].id))
    requires |ShardedRun(c, hash, shards, reqs)| == |reqs|
    requires var refusal := ShardedRun(c, hash, shards, reqs)[p];
             && !refusal.allowed && refusal.blockedUntil.Some? && refusal.blockedUntil.value <= reqs[s].now
             && Early(reqs, reqs[p].id, p + 1, s, refusal.blockedUntil.value)
    requires |TimesOf(reqs[s..q + 1], reqs[p].id)| <= c.burst
    ensures ShardedRun(c, hash, shards, reqs)[q] == Decision(true, false, None)
    decreases q
  {
    hide Fits, Bucket, ShardedRun, Healthy, Early, TimesOf;
    var run, id := ShardedRun(c, hash, shards, reqs), reqs[p].id;
    ServedAgain(c, hash, shards, reqs, from, p, s, q);
    PartMonotone(reqs, from, s, q + 1);
    TimesAscend(reqs[s..q + 1], id, from);
    BurstFits(c, TimesOf(reqs[s..q + 1], id), from);
    forall r | s <= r < q && reqs[r].id == id ensures run[r].allowed {
      assert reqs[s..q + 1][..r + 1 - s] == reqs[s..r + 1];
      TimesOfSize(reqs[s..q + 1], id, r + 1 - s);
      BurstAfterBlock(c, hash, shards, reqs, from, p, s, r);
    }
    assert Admits(reqs, run, id, s, q);
  }

  /** A fresh throttle serves a client that was never refused in the same way. */
  lemma ServedAtFirst(c: Config, hash: string -> nat, reqs: seq<Request>, from: real, q: nat)
    requires Positive(c) && Monotone(reqs, from) && q < |reqs| && reqs[q].id != ""
    ensures var run, id := ShardedRun(c, hash, NoShards(), reqs), reqs[q].id;
            && |run| == |reqs|
            && (Admits(reqs, run, id, 0, q) && Fits(c, TimesOf(reqs[..q + 1], id)) ==>
                  run[q] == Decision(true, false, None))
  {
    hide Fits, ShardedRun, Admits, TimesOf, Backed;
    NewIsBacked(c, []);
    assert Bucket(c, hash, NoShards(), reqs[q].id) == NewEntry(c);
    ServedFrom(c, hash, NoShards(), reqs, from, reqs[q].id, [], q);
    assert [] + TimesOf(reqs[..q + 1], reqs[q].id) == TimesOf(reqs[..q + 1], reqs[q].id);
  }
}
