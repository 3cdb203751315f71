/** The bounded, expiring queue of firewall events (pkg/waf/event_store.go:8-112). The
    order slice is modelled with its backing array, because the cleanup filters it in
    place: what it keeps is written over what it has already read. */
module EventStore {
  import opened Bytes

  datatype Event<E> = Event(traceID: string, body: E)

  datatype Stored<E> = Stored(event: Event<E>, expiresAt: int)

  datatype Queue<E> = Queue(items: map<string, Stored<E>>, order: seq<string>)

  const DEFAULT_MAX_EVENTS: nat := 1000
  const DEFAULT_TTL := 600_000_000_000

  // ------------------------------------------------------------------
  // Specification
  // ------------------------------------------------------------------

  predicate Fresh<E>(items: map<string, Stored<E>>, id: string, now: int) {
    id in items && now <= items[id].expiresAt
  }

  function Kept<E>(items: map<string, Stored<E>>, order: seq<string>, now: int): seq<string> {
    if order == [] then []
    else
      var front, last := Kept(items, order[..|order| - 1], now), order[|order| - 1];
      if Fresh(items, last, now) then front + [last] else front
  }

  function Gone<E>(items: map<string, Stored<E>>, order: seq<string>, now: int): set<string> {
    set id | id in order && id in items && !Fresh(items, id, now)
  }

  function Cleaned<E>(s: Queue<E>, now: int): Queue<E> {
    Queue(s.items - Gone(s.items, s.order, now), Kept(s.items, s.order, now))
  }

  /** The oldest entries beyond the limit are evicted. */
  function Evicted<E>(s: Queue<E>, max: nat): Queue<E>
    decreases |s.order|
  {
    if |s.order| <= max then s
    else Evicted(Queue(s.items - {s.order[0]}, s.order[1..]), max)
  }

  function Inserted<E>(s: Queue<E>, e: Event<E>, expiresAt: int): Queue<E> {
    Queue(s.items[e.traceID := Stored(e, expiresAt)], if e.traceID in s.items then s.order else s.order + [e.traceID])
  }

  function Added<E>(s: Queue<E>, e: Event<E>, now: int, max: nat, ttl: int): Queue<E> {
    if e.traceID == "" then s else Evicted(Inserted(Cleaned(s, now), e, now + ttl), max)
  }

  function Limit(limit: int, max: nat): nat {
    if limit <= 0 || limit > max then max else limit
  }

  /** Up to `limit` events from the front, and what is left. */
  function Taken<E>(s: Queue<E>, limit: nat): (Queue<E>, seq<Event<E>>)
    decreases |s.order|
  {
    if s.order == [] || limit == 0 then (s, [])
    else
      var id, rest := s.order[0], s.order[1..];
      if id in s.items then
        var (left, events) := Taken(Queue(s.items - {id}, rest), limit - 1);
        (left, [s.items[id].event] + events)
      else Taken(Queue(s.items, rest), limit)
  }

  // ------------------------------------------------------------------
  // The store
  // ------------------------------------------------------------------

  class EventStore<E(==)> {
    var items: map<string, Stored<E>>
    var slots: array<string>          // the backing array of the order slice
    var lo: nat
    var hi: nat
    const maxEntries: nat
    const ttl: int

    ghost predicate Valid()
      reads this
    {
      lo <= hi <= slots.Length
    }

    ghost function State(): Queue<E>
      reads this, slots
      requires Valid()
    {
      Queue(items, slots[lo..hi])
    }

    /** NewEventStore: values that make no sense fall back to the defaults. */
    constructor (maxEntries: int, ttl: int)
      ensures Valid() && State() == Queue(map[], [])
      ensures fresh(slots)
      ensures this.maxEntries == (if maxEntries <= 0 then 1000 else maxEntries)
      ensures this.ttl == if ttl <= 0 then 600_000_000_000 else ttl
    {
      this.maxEntries := if maxEntries <= 0 then DEFAULT_MAX_EVENTS else maxEntries;
      this.ttl := if ttl <= 0 then DEFAULT_TTL else ttl;
      items, lo, hi := map[], 0, 0;
      slots := new string[0];
    }

    /** append: in place while the backing array has room, else into a larger copy. */
    method AppendOrder(id: string)
      requires Valid()
      modifies this`slots, this`lo, this`hi, slots
      ensures Valid() && (slots == old(slots) || fresh(slots))
      ensures slots[lo..hi] == old(slots[lo..hi]) + [id]
    {
      if hi == slots.Length {
        var larger := Copied(slots, lo, hi, 2 * (hi - lo) + 1);
        slots, lo, hi := larger, 0, hi - lo;
      }
      ghost var before := slots[lo..hi];
      slots[hi] := id;
      hi := hi + 1;
      assert slots[lo..hi] == before + [id];
    }

    /** cleanupLocked */
    method CleanupLocked(now: int)
      requires Valid()
      modifies this`items, this`hi, slots
      ensures Valid() && State() == Cleaned(old(State()), now)
    {
      hide Kept, Gone;
      if lo == hi {
        NothingCleaned(State(), now);
        return;
      }
      var next, left := FilterInPlace(slots, lo, hi, items, now);
      hi, items := next, left;
    }

    /** Add */
    method Add(event: Event<E>, now: int)
      requires Valid()
      modifies this`items, this`slots, this`lo, this`hi, slots
      ensures Valid() && (slots == old(slots) || fresh(slots))
      ensures State() == Added(old(State()), event, now, maxEntries, ttl)
    {
      hide Cleaned, Evicted;
      if event.traceID == "" {
        return;
      }
      CleanupLocked(now);
      ghost var cleaned := State();
      if event.traceID !in items {
        AppendOrder(event.traceID);
      }
      items := items[event.traceID := Stored(event, now + ttl)];
      assert State() == Inserted(cleaned, event, now + ttl);
      Evict();
    }

    method Evict()
      requires Valid()
      modifies this`items, this`lo
      ensures Valid() && State() == Evicted(old(State()), maxEntries)
    {
      while hi - lo > maxEntries
        invariant Valid() && Evicted(State(), maxEntries) == Evicted(old(State()), maxEntries)
        decreases hi - lo
      {
        var oldest := slots[lo];
        ghost var before := slots[lo..hi];
        lo := lo + 1;
        items := items - {oldest};
        assert slots[lo..hi] == before[1..];
      }
    }

    /** Pending */
    method Pending(now: int) returns (n: nat)
      requires Valid()
      modifies this`items, this`hi, slots
      ensures Valid() && State() == Cleaned(old(State()), now) && n == |State().items|
    {
      CleanupLocked(now);
      n := |items|;
    }

    /** Drain */
    method Drain(limit: int, now: int) returns (events: seq<Event<E>>, drained: nat, remaining: nat)
      requires Valid()
      modifies this`items, this`lo, this`hi, slots
      ensures Valid()
      ensures (State(), events) == Taken(Cleaned(old(State()), now), Limit(limit, maxEntries))
      ensures drained == |events| && remaining == |State().items|
    {
      hide Cleaned, Taken;
      var most := Limit(limit, maxEntries);
      CleanupLocked(now);
      ghost var start := State();
      events := [];
      assert [] + Taken(start, most).1 == Taken(start, most).1;
      while hi - lo > 0 && |events| < most
        invariant Valid() && |events| <= most
        invariant Taken(start, most).0 == Taken(State(), most - |events|).0
        invariant Taken(start, most).1 == events + Taken(State(), most - |events|).1
        decreases hi - lo
      {
        TakenStep(State(), most - |events|, events);
        ghost var before := slots[lo..hi];
        var id := slots[lo];
        lo := lo + 1;
        assert slots[lo..hi] == before[1..];
        if id in items {
          events := events + [items[id].event];
          items := items - {id};
        }
      }
      TakenStep(State(), most - |events|, events);
      return events, |events|, |items|;
    }
  }

  /** One round of draining, with the events drained so far. */
  lemma TakenStep<E>(s: Queue<E>, limit: nat, events: seq<Event<E>>)
    ensures var t := Taken(s, limit);
            if s.order == [] || limit == 0 then t.0 == s && events + t.1 == events
            else if s.order[0] in s.items then
              var u := Taken(Queue(s.items - {s.order[0]}, s.order[1..]), limit - 1);
              t.0 == u.0 && events + t.1 == (events + [s.items[s.order[0]].event]) + u.1
            else t == Taken(Queue(s.items, s.order[1..]), limit)
  {
  }

  lemma Still<E>(items: map<string, Stored<E>>, order: seq<string>, id: string, now: int)
    ensures Fresh(items, id, now) ==> id in items - Gone(items, order, now)
    ensures id in items - Gone(items, order, now) ==>
              (Fresh(items, id, now) <==> !(now > items[id].expiresAt))
    ensures id !in items - Gone(items, order, now) ==>
              !Fresh(items, id, now) && items - Gone(items, order, now) - {id} == items - Gone(items, order, now)
    ensures items - (Gone(items, order, now) + {id}) == items - Gone(items, order, now) - {id}
    ensures items - (Gone(items, order, now) + {}) == items - Gone(items, order, now)
  {
    var gone := Gone(items, order, now);
    assert gone + {} == gone;
  }

  method Copied(a: array<string>, lo: nat, hi: nat, length: nat) returns (larger: array<string>)
    requires lo <= hi <= a.Length && hi - lo <= length
    ensures fresh(larger) && larger.Length == length && larger[..hi - lo] == a[lo..hi]
  {
    larger := new string[length](_ => "");
    for i := 0 to hi - lo
      invariant forall k :: 0 <= k < i ==> larger[k] == a[lo + k]
    {
      larger[i] := a[lo + i];
    }
  }

  /** The loop of the cleanup: what is kept is written over what has been read. */
  method FilterInPlace<E>(a: array<string>, lo: nat, hi: nat, items: map<string, Stored<E>>, now: int)
    returns (next: nat, left: map<string, Stored<E>>)
    requires lo <= hi <= a.Length
    modifies a
    ensures lo <= next <= hi
    ensures a[lo..next] == Kept(items, old(a[lo..hi]), now)
    ensures left == items - Gone(items, old(a[lo..hi]), now)
  {
    hide Kept, Gone, Fresh;
    ghost var order := a[lo..hi];
    next, left := lo, items;
    NothingCleaned(Queue(items, []), now);
    assert order[..0] == [];
    for i := lo to hi
      invariant lo <= next <= i
      invariant a[lo..next] == Kept(items, order[..i - lo], now)
      invariant a[i..hi] == order[i - lo..]
      invariant left == items - Gone(items, order[..i - lo], now)
    {
      SliceOpens(a[..], i, hi);
      SliceOpens(order, i - lo, hi - lo);
      var id := a[i];
      CleanStep(items, order, i - lo, now);
      Still(items, order[..i - lo], id, now);
      if id in left {
        if now > left[id].expiresAt {
          left := left - {id};
        } else {
          PutNext(a, lo, next, i, hi, id);
          next := next + 1;
        }
      }
    }
    assert order[..hi - lo] == order;
  }

  lemma SliceOpens(s: seq<string>, i: nat, hi: nat)
    requires i < hi <= |s|
    ensures s[i..hi] == [s[i]] + s[i + 1..hi] && s[i..hi][0] == s[i] && s[i..hi][1..] == s[i + 1..hi]
  {
  }

  method PutNext(a: array<string>, lo: nat, next: nat, i: nat, hi: nat, id: string)
    requires lo <= next <= i < hi <= a.Length
    modifies a
    ensures a[lo..next + 1] == old(a[lo..next]) + [id]
    ensures a[i + 1..hi] == old(a[i..hi])[1..]
  {
    a[next] := id;
  }

  lemma NothingCleaned<E>(s: Queue<E>, now: int)
    requires s.order == []
    ensures Cleaned(s, now) == s && Kept(s.items, [], now) == [] && s.items - Gone(s.items, [], now) == s.items
  {
    assert s.items - {} == s.items;
  }

  lemma CleanStep<E>(items: map<string, Stored<E>>, order: seq<string>, i: nat, now: int)
    requires i < |order|
    ensures var id := order[i];
            && Kept(items, order[..i + 1], now)
               == Kept(items, order[..i], now) + (if Fresh(items, id, now) then [id] else [])
            && Gone(items, order[..i + 1], now)
               == Gone(items, order[..i], now) + (if id in items && !Fresh(items, id, now) then {id} else {})
  {
    assert order[..i + 1][..i] == order[..i];
    assert order[..i + 1] == order[..i] + [order[i]];
  }
}
