/** Runs of an event store (pkg/waf/event_store.go:36-112). */
module EventStoreHistory {
  // Every insertion gets a ticket with the next number; a ledger beside the store says
  // where each ticket is.

  import opened Bytes
  import opened EventStore

  datatype Op<E> = Add(event: Event<E>, now: int) | Drain(limit: int, now: int) | Pending(now: int)

  function Step<E>(q: Queue<E>, op: Op<E>, max: nat, ttl: int): (Queue<E>, seq<Event<E>>) {
    match op
    case Add(event, now) => (Added(q, event, now, max, ttl), [])
    case Drain(limit, now) => Taken(Cleaned(q, now), Limit(limit, max))
    case Pending(now) => (Cleaned(q, now), [])
  }

  /** The store after a run, and all events drained during it. */
  function Run<E>(ops: seq<Op<E>>, max: nat, ttl: int): (Queue<E>, seq<Event<E>>) {
    if ops == [] then (Queue(map[], []), [])
    else
      var before := Run(ops[..|ops| - 1], max, ttl);
      var (after, events) := Step(before.0, ops[|ops| - 1], max, ttl);
      (after, before.1 + events)
  }

  // ------------------------------------------------------------------
  // The ledger
  // ------------------------------------------------------------------

  datatype Ticket = Ticket(id: string, number: nat)

  datatype Ledger<E> = Ledger(
    items: map<string, Stored<E>>,
    queue: seq<Ticket>,
    next: nat,                // the number of insertions so far
    drained: seq<Ticket>,
    evicted: set<nat>,
    expired: set<nat>)

  function Ids(queue: seq<Ticket>): (ids: seq<string>)
    ensures |ids| == |queue| && forall i :: 0 <= i < |queue| ==> ids[i] == queue[i].id
  {
    seq(|queue|, i requires 0 <= i < |queue| => queue[i].id)
  }

  function Numbers(queue: seq<Ticket>): set<nat> {
    set i | 0 <= i < |queue| :: queue[i].number
  }

  function View<E>(l: Ledger<E>): Queue<E> {
    Queue(l.items, Ids(l.queue))
  }

  function KeptTickets<E>(items: map<string, Stored<E>>, queue: seq<Ticket>, now: int): seq<Ticket> {
    if queue == [] then []
    else
      var front, last := KeptTickets(items, queue[..|queue| - 1], now), queue[|queue| - 1];
      if Fresh(items, last.id, now) then front + [last] else front
  }

  function Expired<E>(items: map<string, Stored<E>>, queue: seq<Ticket>, now: int): set<nat> {
    set i | 0 <= i < |queue| && !Fresh(items, queue[i].id, now) :: queue[i].number
  }

  function CleanedLedger<E>(l: Ledger<E>, now: int): Ledger<E> {
    l.(items := l.items - Gone(l.items, Ids(l.queue), now),
       queue := KeptTickets(l.items, l.queue, now),
       expired := l.expired + Expired(l.items, l.queue, now))
  }

  function InsertedLedger<E>(l: Ledger<E>, e: Event<E>, expiresAt: int): Ledger<E> {
    var items := l.items[e.traceID := Stored(e, expiresAt)];
    if e.traceID in l.items then l.(items := items)
    else l.(items := items, queue := l.queue + [Ticket(e.traceID, l.next)], next := l.next + 1)
  }

  function EvictedLedger<E>(l: Ledger<E>, max: nat): Ledger<E>
    decreases |l.queue|
  {
    if |l.queue| <= max then l
    else
      EvictedLedger(
        l.(items := l.items - {l.queue[0].id}, queue := l.queue[1..], evicted := l.evicted + {l.queue[0].number}), max)
  }

  function TakenLedger<E>(l: Ledger<E>, limit: nat): Ledger<E>
    decreases |l.queue|
  {
    if l.queue == [] || limit == 0 then l
    else
      TakenLedger(
        l.(items := l.items - {l.queue[0].id}, queue := l.queue[1..], drained := l.drained + [l.queue[0]]), limit - 1)
  }

  function StepLedger<E>(l: Ledger<E>, op: Op<E>, max: nat, ttl: int): Ledger<E> {
    match op
    case Add(event, now) =>
      if event.traceID == "" then l
      else EvictedLedger(InsertedLedger(CleanedLedger(l, now), event, now + ttl), max)
    case Drain(limit, now) => TakenLedger(CleanedLedger(l, now), Limit(limit, max))
    case Pending(now) => CleanedLedger(l, now)
  }

  function NewLedger<E>(): Ledger<E> {
    Ledger(map[], [], 0, [], {}, {})
  }

  function RunLedger<E>(ops: seq<Op<E>>, max: nat, ttl: int): Ledger<E> {
    if ops == [] then NewLedger()
    else StepLedger(RunLedger(ops[..|ops| - 1], max, ttl), ops[|ops| - 1], max, ttl)
  }

  // ------------------------------------------------------------------
  // What every step keeps
  // ------------------------------------------------------------------

  predicate Ascending(queue: seq<Ticket>) {
    forall i, j :: 0 <= i < j < |queue| ==> queue[i].number < queue[j].number
  }

  predicate NoRepeats(ids: seq<string>) {
    forall i, j :: 0 <= i < j < |ids| ==> ids[i] != ids[j]
  }

  /** The order lists exactly the keys of the items, each once, under its own trace id. */
  ghost predicate Indexed<E>(q: Queue<E>) {
    && NoRepeats(q.order)
    && (forall id :: id in q.order <==> id in q.items)
    && (forall id :: id in q.items ==> q.items[id].event.traceID == id)
  }

  /** Tickets leave the queue in order of their numbers. */
  predicate InOrder<E>(l: Ledger<E>) {
    && Ascending(l.drained + l.queue)
    && (forall i :: 0 <= i < |l.queue| ==> l.queue[i].number < l.next)
  }

  /** In how many places a ticket is. */
  function Places<E>(l: Ledger<E>, n: nat): nat {
    (if n in Numbers(l.queue) then 1 else 0)
    + (if n in Numbers(l.drained) then 1 else 0)
    + (if n in l.evicted then 1 else 0)
    + (if n in l.expired then 1 else 0)
  }

  /** Every ticket issued is in exactly one place. */
  ghost predicate Conserved<E>(l: Ledger<E>) {
    forall n: nat :: Places(l, n) == if n < l.next then 1 else 0
  }

  ghost predicate Good<E>(l: Ledger<E>) {
    Indexed(View(l)) && InOrder(l) && Conserved(l)
  }

  // --- cleaning -------------------------------------------------------

  lemma {:induction false} KeptIds<E>(items: map<string, Stored<E>>, queue: seq<Ticket>, now: int)
    ensures Ids(KeptTickets(items, queue, now)) == Kept(items, Ids(queue), now)
  {
    if queue != [] {
      hide Fresh;
      var front := queue[..|queue| - 1];
      KeptIds(items, front, now);
      assert Ids(queue)[..|queue| - 1] == Ids(front);
    }
  }

  lemma {:induction false} KeptAre<E>(items: map<string, Stored<E>>, queue: seq<Ticket>, now: int)
    ensures forall t :: t in KeptTickets(items, queue, now) <==> t in queue && Fresh(items, t.id, now)
  {
    if queue != [] {
      hide Fresh;
      var front := queue[..|queue| - 1];
      KeptAre(items, front, now);
      assert queue == front + [queue[|queue| - 1]];
    }
  }

  /** Filtering the queue keeps it ascending behind anything it was ascending behind. */
  lemma {:induction false} KeptAscends<E>(items: map<string, Stored<E>>, front: seq<Ticket>, queue: seq<Ticket>,
                                          now: int)
    requires Ascending(front + queue)
    ensures Ascending(front + KeptTickets(items, queue, now))
  {
    if queue != [] {
      hide Fresh;
      var less, last := queue[..|queue| - 1], queue[|queue| - 1];
      assert forall k :: 0 <= k < |front + less| ==> (front + less)[k] == (front + queue)[k];
      KeptAscends(items, front, less, now);
      KeptAre(items, less, now);
      var kept := front + KeptTickets(items, less, now);
      assert less + [last] == queue;
      forall k | 0 <= k < |kept| ensures kept[k].number < last.number {
        BeforeLast(front, less, last, kept[k]);
      }
      assert front + (KeptTickets(items, less, now) + [last]) == kept + [last];
    }
  }

  lemma BeforeLast(front: seq<Ticket>, less: seq<Ticket>, last: Ticket, t: Ticket)
    requires Ascending(front + (less + [last])) && (t in front || t in less)
    ensures t.number < last.number
  {
    var all := front + (less + [last]);
    assert all[|front| + |less|] == last;
    if t in front {
      var i :| 0 <= i < |front| && front[i] == t;
      assert all[i] == t;
    } else {
      var i :| 0 <= i < |less| && less[i] == t;
      assert all[|front| + i] == t;
    }
  }

  predicate SameIdSameTicket(queue: seq<Ticket>) {
    forall t, u :: t in queue && u in queue && t.id == u.id ==> t == u
  }

  lemma NoRepeatsIs(queue: seq<Ticket>)
    requires Ascending(queue)
    ensures NoRepeats(Ids(queue)) <==> SameIdSameTicket(queue)
  {
    if NoRepeats(Ids(queue)) {
      forall t, u | t in queue && u in queue && t.id == u.id ensures t == u {
        var i :| 0 <= i < |queue| && queue[i] == t;
        var j :| 0 <= j < |queue| && queue[j] == u;
        assert Ids(queue)[i] == Ids(queue)[j];
      }
    }
    if SameIdSameTicket(queue) {
      forall i, j | 0 <= i < j < |queue| ensures Ids(queue)[i] != Ids(queue)[j] {
        assert queue[i].number < queue[j].number && queue[i] in queue && queue[j] in queue;
      }
    }
  }

  lemma AscendingParts(a: seq<Ticket>, b: seq<Ticket>)
    requires Ascending(a + b)
    ensures Ascending(a) && Ascending(b)
    ensures forall t, u :: t in a && u in b ==> t.number < u.number
  {
    assert forall i :: 0 <= i < |a| ==> (a + b)[i] == a[i];
    assert forall i :: 0 <= i < |b| ==> (a + b)[|a| + i] == b[i];
  }

  lemma InNumbers(queue: seq<Ticket>, n: nat)
    ensures n in Numbers(queue) <==> exists t :: t in queue && t.number == n
  {
    if n in Numbers(queue) {
      var i :| 0 <= i < |queue| && queue[i].number == n;
      assert queue[i] in queue;
    }
  }

  lemma InIds(queue: seq<Ticket>, id: string)
    ensures id in Ids(queue) <==> exists t :: t in queue && t.id == id
  {
    if id in Ids(queue) {
      var i :| 0 <= i < |queue| && Ids(queue)[i] == id;
      assert queue[i] in queue;
    }
    if t :| t in queue && t.id == id {
      var i :| 0 <= i < |queue| && queue[i] == t;
      assert Ids(queue)[i] == id;
    }
  }

  lemma CleanKeepsIndexed<E>(l: Ledger<E>, now: int)
    requires Indexed(View(l)) && InOrder(l)
    ensures Indexed(View(CleanedLedger(l, now)))
  {
    hide Fresh, KeptTickets;
    var kept := KeptTickets(l.items, l.queue, now);
    AscendingParts(l.drained, l.queue);
    KeptAscends(l.items, l.drained, l.queue, now);
    AscendingParts(l.drained, kept);
    KeptAre(l.items, l.queue, now);
    NoRepeatsIs(l.queue);
    NoRepeatsIs(kept);
    var after := View(CleanedLedger(l, now));
    forall id ensures id in after.order <==> id in after.items {
      InIds(kept, id);
      InIds(l.queue, id);
      FreshIsIn(l.items, id, now);
    }
  }

  lemma FreshIsIn<E>(items: map<string, Stored<E>>, id: string, now: int)
    ensures Fresh(items, id, now) ==> id in items
  {
  }

  lemma CleanKeepsConserved<E>(l: Ledger<E>, now: int)
    requires InOrder(l) && Conserved(l)
    ensures Conserved(CleanedLedger(l, now))
  {
    hide Fresh, KeptTickets, Numbers, Conserved;
    AscendingParts(l.drained, l.queue);
    KeptAre(l.items, l.queue, now);
    var after := CleanedLedger(l, now);
    forall n: nat ensures Places(after, n) == Places(l, n) {
      InNumbers(l.queue, n);
      InNumbers(after.queue, n);
      ConservedAt(l, n);
      if t :| t in l.queue && t.number == n {
        OneTicket(l.queue, t, n);
        InExpired(l.items, l.queue, n, now);
      } else {
        InExpired(l.items, l.queue, n, now);
      }
    }
    ConservedFrom(l, after);
  }

  lemma ConservedAt<E>(l: Ledger<E>, n: nat)
    requires Conserved(l)
    ensures Places(l, n) <= 1
  {
  }

  lemma ConservedFrom<E>(l: Ledger<E>, after: Ledger<E>)
    requires Conserved(l) && after.next == l.next && forall n: nat :: Places(after, n) == Places(l, n)
    ensures Conserved(after)
  {
    hide Places;
  }

  lemma OneTicket(queue: seq<Ticket>, t: Ticket, n: nat)
    requires Ascending(queue) && t in queue && t.number == n
    ensures forall u :: u in queue && u.number == n ==> u == t
  {
    var i :| 0 <= i < |queue| && queue[i] == t;
    forall u | u in queue && u.number == n ensures u == t {
      var j :| 0 <= j < |queue| && queue[j] == u;
      assert i == j;
    }
  }

  lemma InExpired<E>(items: map<string, Stored<E>>, queue: seq<Ticket>, n: nat, now: int)
    ensures n in Expired(items, queue, now) <==> exists t :: t in queue && t.number == n && !Fresh(items, t.id, now)
  {
    hide Fresh;
    if n in Expired(items, queue, now) {
      var i :| 0 <= i < |queue| && !Fresh(items, queue[i].id, now) && queue[i].number == n;
      assert queue[i] in queue;
    }
  }

  lemma CleanKeepsGood<E>(l: Ledger<E>, now: int)
    requires Good(l)
    ensures Good(CleanedLedger(l, now)) && View(CleanedLedger(l, now)) == Cleaned(View(l), now)
  {
    hide Indexed, Conserved, KeptTickets, Fresh, Gone;
    CleanKeepsIndexed(l, now);
    CleanKeepsConserved(l, now);
    KeptAscends(l.items, l.drained, l.queue, now);
    KeptAre(l.items, l.queue, now);
    KeptIds(l.items, l.queue, now);
    var after := CleanedLedger(l, now);
    forall i | 0 <= i < |after.queue| ensures after.queue[i].number < after.next {
      assert after.queue[i] in l.queue;
    }
  }

  // --- inserting, evicting, draining ------------------------------------

  lemma InsertKeepsGood<E>(l: Ledger<E>, e: Event<E>, expiresAt: int)
    requires Good(l)
    ensures Good(InsertedLedger(l, e, expiresAt))
    ensures View(InsertedLedger(l, e, expiresAt)) == Inserted(View(l), e, expiresAt)
  {
    var after := InsertedLedger(l, e, expiresAt);
    if e.traceID !in l.items {
      var t := Ticket(e.traceID, l.next);
      assert Ids(after.queue) == Ids(l.queue) + [e.traceID];
      InsertKeepsOrder(l, t);
      assert InOrder(after);
      InsertKeepsConserved(l, after, t);
    } else {
      ConservedFrom(l, after);
    }
  }

  lemma InsertKeepsOrder<E>(l: Ledger<E>, t: Ticket)
    requires InOrder(l) && Conserved(l) && t.number == l.next
    ensures Ascending(l.drained + (l.queue + [t]))
  {
    hide Conserved;
    forall i | 0 <= i < |l.drained| ensures l.drained[i].number < l.next {
      DrainedIsIssued(l, i);
    }
    assert l.drained + (l.queue + [t]) == l.drained + l.queue + [t];
  }

  lemma DrainedIsIssued<E>(l: Ledger<E>, i: nat)
    requires Conserved(l) && i < |l.drained|
    ensures l.drained[i].number < l.next
  {
    var n := l.drained[i].number;
    assert n in Numbers(l.drained);
    assert Places(l, n) >= 1;
  }

  lemma InsertKeepsConserved<E>(l: Ledger<E>, after: Ledger<E>, t: Ticket)
    requires Conserved(l) && t.number == l.next
    requires after.drained == l.drained && after.evicted == l.evicted && after.expired == l.expired
    requires after.queue == l.queue + [t] && after.next == l.next + 1
    ensures Conserved(after)
  {
    hide Numbers;
    forall n: nat ensures Places(after, n) == if n < after.next then 1 else 0 {
      InNumbers(l.queue, n);
      InNumbers(after.queue, n);
      assert t in after.queue;
      assert Places(l, n) == if n < l.next then 1 else 0;
    }
  }

  /** The first ticket leaves the queue, for one of the other places. */
  lemma PopKeepsGood<E>(l: Ledger<E>, after: Ledger<E>)
    requires Good(l) && l.queue != []
    requires after.items == l.items - {l.queue[0].id} && after.queue == l.queue[1..]
    requires after.next == l.next && after.expired == l.expired
    requires || (after.drained == l.drained + [l.queue[0]] && after.evicted == l.evicted)
             || (after.drained == l.drained && after.evicted == l.evicted + {l.queue[0].number})
    ensures Good(after)
    ensures View(after) == Queue(View(l).items - {View(l).order[0]}, View(l).order[1..])
  {
    hide Indexed, Conserved, Ascending;
    PopKeepsIndexed(l, after);
    PopKeepsConserved(l, after);
    if after.drained == l.drained {
      DropFirst(l.drained, l.queue);
    } else {
      assert after.drained + after.queue == l.drained + l.queue;
    }
    assert forall i :: 0 <= i < |after.queue| ==> after.queue[i] == l.queue[i + 1];
  }

  lemma DropFirst(a: seq<Ticket>, b: seq<Ticket>)
    requires Ascending(a + b) && b != []
    ensures Ascending(a + b[1..])
  {
    forall i, j | 0 <= i < j < |a + b[1..]| ensures (a + b[1..])[i].number < (a + b[1..])[j].number {
      var i' := if i < |a| then i else i + 1;
      var j' := if j < |a| then j else j + 1;
      assert (a + b)[i'].number < (a + b)[j'].number;
    }
  }

  lemma PopKeepsIndexed<E>(l: Ledger<E>, after: Ledger<E>)
    requires Indexed(View(l)) && l.queue != []
    requires after.items == l.items - {l.queue[0].id} && after.queue == l.queue[1..]
    ensures Indexed(View(after))
    ensures View(after) == Queue(View(l).items - {View(l).order[0]}, View(l).order[1..])
  {
    var order := View(l).order;
    assert View(after).order == order[1..];
    forall id ensures id in order[1..] <==> id in order && id != order[0] {
      if id in order && id != order[0] {
        var i :| 0 <= i < |order| && order[i] == id;
        assert order[1..][i - 1] == id;
      }
    }
  }

  lemma PopKeepsConserved<E>(l: Ledger<E>, after: Ledger<E>)
    requires Conserved(l) && Ascending(l.drained + l.queue) && l.queue != []
    requires after.queue == l.queue[1..] && after.next == l.next && after.expired == l.expired
    requires || (after.drained == l.drained + [l.queue[0]] && after.evicted == l.evicted)
             || (after.drained == l.drained && after.evicted == l.evicted + {l.queue[0].number})
    ensures Conserved(after)
  {
    hide Numbers, Conserved, Ascending, Places;
    var t := l.queue[0];
    AscendingParts(l.drained, l.queue);
    assert l.queue == [t] + after.queue;
    AscendingParts([t], after.queue);
    forall n: nat ensures Places(after, n) == Places(l, n) {
      ConservedAt(l, n);
      PopMoves(l, after, n);
    }
    ConservedFrom(l, after);
  }

  lemma PopMoves<E>(l: Ledger<E>, after: Ledger<E>, n: nat)
    requires l.queue != [] && Places(l, n) <= 1
    requires after.queue == l.queue[1..] && after.expired == l.expired
    requires forall u :: u in after.queue ==> l.queue[0].number < u.number
    requires || (after.drained == l.drained + [l.queue[0]] && after.evicted == l.evicted)
             || (after.drained == l.drained && after.evicted == l.evicted + {l.queue[0].number})
    ensures Places(after, n) == Places(l, n)
  {
    hide Numbers;
    var t := l.queue[0];
    assert l.queue == [t] + after.queue;
    NumbersAppend([t], after.queue, n);
    NumbersAppend(l.drained, [t], n);
    NumbersOne(t, n);
    InNumbers(after.queue, n);
  }

  lemma NumbersAppend(a: seq<Ticket>, b: seq<Ticket>, n: nat)
    ensures n in Numbers(a + b) <==> n in Numbers(a) || n in Numbers(b)
  {
    InNumbers(a + b, n);
    InNumbers(a, n);
    InNumbers(b, n);
  }

  lemma NumbersOne(t: Ticket, n: nat)
    ensures n in Numbers([t]) <==> n == t.number
  {
    InNumbers([t], n);
  }

  lemma {:induction false} EvictKeepsGood<E>(l: Ledger<E>, max: nat)
    requires Good(l)
    ensures Good(EvictedLedger(l, max)) && View(EvictedLedger(l, max)) == Evicted(View(l), max)
    ensures |EvictedLedger(l, max).queue| <= max
    decreases |l.queue|
  {
    if |l.queue| > max {
      hide Good;
      var after :=
        l.(items := l.items - {l.queue[0].id}, queue := l.queue[1..], evicted := l.evicted + {l.queue[0].number});
      PopKeepsGood(l, after);
      EvictKeepsGood(after, max);
    }
  }

  /** The events a drain returns are those of the tickets it takes. */
  lemma {:induction false} TakeKeepsGood<E>(l: Ledger<E>, limit: nat)
    requires Good(l)
    ensures Good(TakenLedger(l, limit)) && View(TakenLedger(l, limit)) == Taken(View(l), limit).0
    ensures |TakenLedger(l, limit).queue| <= |l.queue|
    ensures Ids(TakenLedger(l, limit).drained) == Ids(l.drained) + TraceIDs(Taken(View(l), limit).1)
    decreases |l.queue|
  {
    hide Good, Taken, TakenLedger, View;
    TakeUnfolds(l, limit);
    if l.queue != [] && limit > 0 {
      var after := l.(items := l.items - {l.queue[0].id}, queue := l.queue[1..], drained := l.drained + [l.queue[0]]);
      FirstIsListed(l);
      PopKeepsGood(l, after);
      TakeKeepsGood(after, limit - 1);
      assert Ids(after.drained) == Ids(l.drained) + [l.queue[0].id];
    } else {
      assert Ids(l.drained) + [] == Ids(l.drained);
    }
  }

  function TraceIDs<E>(events: seq<Event<E>>): (ids: seq<string>)
    ensures |ids| == |events| && forall i :: 0 <= i < |events| ==> ids[i] == events[i].traceID
  {
    seq(|events|, i requires 0 <= i < |events| => events[i].traceID)
  }

  lemma FirstIsListed<E>(l: Ledger<E>)
    requires Good(l) && l.queue != []
    ensures l.queue[0].id in l.items && l.items[l.queue[0].id].event.traceID == l.queue[0].id
  {
    assert View(l).order[0] == l.queue[0].id;
  }

  lemma TakeUnfolds<E>(l: Ledger<E>, limit: nat)
    ensures l.queue == [] || limit == 0 ==>
              TakenLedger(l, limit) == l && Taken(View(l), limit) == (View(l), [])
    ensures l.queue != [] && limit > 0 && l.queue[0].id in l.items ==>
              var after :=
                l.(items := l.items - {l.queue[0].id}, queue := l.queue[1..], drained := l.drained + [l.queue[0]]);
              && TakenLedger(l, limit) == TakenLedger(after, limit - 1)
              && Taken(View(l), limit).0 == Taken(View(after), limit - 1).0
              && TraceIDs(Taken(View(l), limit).1)
                 == [l.items[l.queue[0].id].event.traceID] + TraceIDs(Taken(View(after), limit - 1).1)
  {
    if l.queue != [] {
      assert View(l).order[1..] == Ids(l.queue[1..]);
    }
  }

  // ------------------------------------------------------------------
  // Runs
  // ------------------------------------------------------------------

  lemma StepKeepsGood<E>(l: Ledger<E>, op: Op<E>, max: nat, ttl: int)
    requires Good(l) && |l.queue| <= max
    ensures var after := StepLedger(l, op, max, ttl);
            var (q, events) := Step(View(l), op, max, ttl);
            && Good(after) && |after.queue| <= max && View(after) == q
            && Ids(after.drained) == Ids(l.drained) + TraceIDs(events)
  {
    hide Good, Cleaned, CleanedLedger, Inserted, InsertedLedger, Evicted, EvictedLedger, Taken, TakenLedger;
    assert Ids(l.drained) + [] == Ids(l.drained);
    match op {
      case Add(event, now) =>
        if event.traceID != "" {
          CleanKeepsGood(l, now);
          InsertKeepsGood(CleanedLedger(l, now), event, now + ttl);
          EvictKeepsGood(InsertedLedger(CleanedLedger(l, now), event, now + ttl), max);
          SameDrained(l, event, now, ttl, max);
        }
      case Drain(limit, now) =>
        CleanKeepsGood(l, now);
        CleanShrinks(l, now);
        TakeKeepsGood(CleanedLedger(l, now), Limit(limit, max));
      case Pending(now) =>
        CleanKeepsGood(l, now);
        CleanShrinks(l, now);
    }
  }

  lemma {:induction false} KeptShrinks<E>(items: map<string, Stored<E>>, queue: seq<Ticket>, now: int)
    ensures |KeptTickets(items, queue, now)| <= |queue|
  {
    if queue != [] {
      KeptShrinks(items, queue[..|queue| - 1], now);
    }
  }

  lemma CleanShrinks<E>(l: Ledger<E>, now: int)
    ensures |CleanedLedger(l, now).queue| <= |l.queue| && CleanedLedger(l, now).drained == l.drained
  {
    KeptShrinks(l.items, l.queue, now);
  }

  lemma {:induction false} EvictSameDrained<E>(l: Ledger<E>, max: nat)
    ensures EvictedLedger(l, max).drained == l.drained
    decreases |l.queue|
  {
    if |l.queue| > max {
      EvictSameDrained(
        l.(items := l.items - {l.queue[0].id}, queue := l.queue[1..], evicted := l.evicted + {l.queue[0].number}), max);
    }
  }

  lemma SameDrained<E>(l: Ledger<E>, e: Event<E>, now: int, ttl: int, max: nat)
    ensures EvictedLedger(InsertedLedger(CleanedLedger(l, now), e, now + ttl), max).drained == l.drained
  {
    EvictSameDrained(InsertedLedger(CleanedLedger(l, now), e, now + ttl), max);
  }

  lemma NewIsGood<E>()
    ensures Good(NewLedger<E>()) && View(NewLedger<E>()) == Queue(map[], []) && Ids(NewLedger<E>().drained) == []
  {
  }

  /** Main result: in every run the order lists exactly the keys of the items, once each and
      never more than the maximum; the events drained are those of the tickets drained. */
  lemma {:induction false} RunIsLedger<E>(ops: seq<Op<E>>, max: nat, ttl: int)
    ensures var (q, events) := Run(ops, max, ttl);
            var l := RunLedger(ops, max, ttl);
            && Good(l) && View(l) == q && Ids(l.drained) == TraceIDs(events)
            && Indexed(q) && |q.order| <= max
  {
    hide Step, StepLedger, Conserved, InOrder, Indexed;
    if ops == [] {
      NewIsGood<E>();
    } else {
      var front, last := ops[..|ops| - 1], ops[|ops| - 1];
      RunIsLedger(front, max, ttl);
      StepKeepsGood(RunLedger(front, max, ttl), last, max, ttl);
    }
  }

  // ------------------------------------------------------------------
  // Counting
  // ------------------------------------------------------------------

  function Upto(n: nat): (numbers: set<nat>)
    ensures forall i: nat :: i in numbers <==> i < n
  {
    if n == 0 then {} else Upto(n - 1) + {n - 1}
  }

  lemma {:induction false} UptoSize(n: nat)
    ensures |Upto(n)| == n
  {
    if n > 0 {
      UptoSize(n - 1);
    }
  }

  lemma {:induction false} NumbersSize(queue: seq<Ticket>)
    requires Ascending(queue)
    ensures |Numbers(queue)| == |queue|
  {
    if queue != [] {
      var front, last := queue[..|queue| - 1], queue[|queue| - 1];
      NumbersSize(front);
      assert Numbers(queue) == Numbers(front) + {last.number};
    }
  }

  lemma DisjointSizes(a: set<nat>, b: set<nat>, c: set<nat>, d: set<nat>)
    requires a !! b && (a + b) !! c && (a + b + c) !! d
    ensures |a + b + c + d| == |a| + |b| + |c| + |d|
  {
  }

  /** Main result: events drain in the order of their first insertion, every insertion leaves
      at most once, and insertions = drained + evicted + expired + pending. */
  lemma InsertionsAreConserved<E>(ops: seq<Op<E>>, max: nat, ttl: int)
    ensures var l := RunLedger(ops, max, ttl);
            && Ascending(l.drained)
            && (forall n: nat :: Places(l, n) == if n < l.next then 1 else 0)
            && l.next == |Run(ops, max, ttl).1| + |l.evicted| + |l.expired| + |Run(ops, max, ttl).0.order|
  {
    RunIsLedger(ops, max, ttl);
    LedgerCounts(RunLedger(ops, max, ttl));
  }

  lemma LedgerCounts<E>(l: Ledger<E>)
    requires Good(l)
    ensures Ascending(l.drained) && l.next == |l.drained| + |l.evicted| + |l.expired| + |l.queue|
  {
    hide Numbers, Ascending, Indexed, Conserved;
    AscendingParts(l.drained, l.queue);
    NumbersSize(l.drained);
    NumbersSize(l.queue);
    UptoSize(l.next);
    PlacesAreDisjoint(l);
    DisjointSizes(Numbers(l.drained), l.evicted, l.expired, Numbers(l.queue));
  }

  lemma PlacesAreDisjoint<E>(l: Ledger<E>)
    requires Conserved(l)
    ensures var d, q := Numbers(l.drained), Numbers(l.queue);
            && d !! l.evicted && (d + l.evicted) !! l.expired && (d + l.evicted + l.expired) !! q
            && d + l.evicted + l.expired + q == Upto(l.next)
  {
    hide Numbers, Upto;
    var d, q := Numbers(l.drained), Numbers(l.queue);
    forall n: nat
      ensures n in d + l.evicted + l.expired + q <==> n in Upto(l.next)
      ensures !(n in d && n in l.evicted) && !(n in d + l.evicted && n in l.expired)
      ensures !(n in d + l.evicted + l.expired && n in q)
    {
      assert Places(l, n) == if n < l.next then 1 else 0;
    }
  }

  /** An event stored again under its trace id keeps its place and gets a new expiry. */
  lemma UpdateKeepsPlace<E>(q: Queue<E>, e: Event<E>, now: int, max: nat, ttl: int)
    requires e.traceID != "" && Fresh(q.items, e.traceID, now) && |Cleaned(q, now).order| <= max
    ensures Added(q, e, now, max, ttl).order == Cleaned(q, now).order
    ensures Added(q, e, now, max, ttl).items == Cleaned(q, now).items[e.traceID := Stored(e, now + ttl)]
  {
  }

  // ------------------------------------------------------------------
  // Which event is drained
  // ------------------------------------------------------------------

  /** What the latest Add under a trace id stored. */
  function Latest<E>(ops: seq<Op<E>>, id: string, ttl: int): (r: Option<Stored<E>>)
    ensures r.Some? ==> r.value.event.traceID == id
  {
    if ops == [] then None
    else
      var op := ops[|ops| - 1];
      if op.Add? && op.event.traceID == id && id != "" then Some(Stored(op.event, op.now + ttl))
      else Latest(ops[..|ops| - 1], id, ttl)
  }

  /** Every item is what the latest Add under its trace id stored. */
  ghost predicate HoldsLatest<E>(q: Queue<E>, ops: seq<Op<E>>, ttl: int) {
    forall id :: id in q.items ==> Latest(ops, id, ttl) == Some(q.items[id])
  }

  ghost predicate SubItems<E>(q: Queue<E>, of_: Queue<E>) {
    forall id :: id in q.items ==> id in of_.items && q.items[id] == of_.items[id]
  }

  lemma {:induction false} EvictedSub<E>(q: Queue<E>, max: nat)
    ensures SubItems(Evicted(q, max), q)
    decreases |q.order|
  {
    if |q.order| > max {
      EvictedSub(Queue(q.items - {q.order[0]}, q.order[1..]), max);
    }
  }

  /** A drain leaves a part of the items and returns events that were items. */
  lemma {:induction false} TakenSub<E>(q: Queue<E>, limit: nat)
    ensures SubItems(Taken(q, limit).0, q)
    ensures forall e :: e in Taken(q, limit).1 ==> exists id :: id in q.items && q.items[id].event == e
    decreases |q.order|
  {
    if q.order != [] && limit > 0 {
      var id, rest := q.order[0], q.order[1..];
      if id in q.items {
        TakenSub(Queue(q.items - {id}, rest), limit - 1);
      } else {
        TakenSub(Queue(q.items, rest), limit);
      }
    }
  }

  /** What is left after a cleanup is listed and not expired. */
  lemma CleanedFresh<E>(q: Queue<E>, now: int)
    ensures SubItems(Cleaned(q, now), q)
    ensures forall id :: id in Cleaned(q, now).items && id in q.order ==> now <= q.items[id].expiresAt
  {
    hide Kept;
  }

  lemma StepHoldsLatest<E>(q: Queue<E>, ops: seq<Op<E>>, op: Op<E>, max: nat, ttl: int)
    requires HoldsLatest(q, ops, ttl)
    ensures HoldsLatest(Step(q, op, max, ttl).0, ops + [op], ttl)
  {
    hide Cleaned, Evicted, Taken;
    assert (ops + [op])[..|ops|] == ops;
    match op {
      case Add(event, now) =>
        CleanedFresh(q, now);
        EvictedSub(Inserted(Cleaned(q, now), event, now + ttl), max);
      case Drain(limit, now) =>
        CleanedFresh(q, now);
        TakenSub(Cleaned(q, now), Limit(limit, max));
      case Pending(now) =>
        CleanedFresh(q, now);
    }
  }

  lemma {:induction false} RunHoldsLatest<E>(ops: seq<Op<E>>, max: nat, ttl: int)
    ensures HoldsLatest(Run(ops, max, ttl).0, ops, ttl)
  {
    hide Step, Latest;
    if ops != [] {
      var front, last := ops[..|ops| - 1], ops[|ops| - 1];
      RunHoldsLatest(front, max, ttl);
      StepHoldsLatest(Run(front, max, ttl).0, front, last, max, ttl);
      assert ops == front + [last];
    }
  }

  /** Main result: an event drained after any run is the one last added under its trace id, and
      has not expired. */
  lemma DrainedIsLatest<E>(ops: seq<Op<E>>, limit: int, now: int, max: nat, ttl: int)
    ensures forall e :: e in Step(Run(ops, max, ttl).0, Drain(limit, now), max, ttl).1 ==>
              var last := Latest(ops, e.traceID, ttl);
              last.Some? && last.value.event == e && now <= last.value.expiresAt
  {
    hide Cleaned, Taken, Latest, InOrder, Conserved;
    var q := Run(ops, max, ttl).0;
    RunHoldsLatest(ops, max, ttl);
    RunIsLedger(ops, max, ttl);
    CleanedFresh(q, now);
    TakenSub(Cleaned(q, now), Limit(limit, max));
  }

  // ------------------------------------------------------------------
  // What stays, and how much is drained
  // ------------------------------------------------------------------

  /** A cleanup keeps exactly the events that have not expired. */
  lemma CleanedExactly<E>(q: Queue<E>, now: int)
    requires Indexed(q)
    ensures Cleaned(q, now).items.Keys == set id | id in q.items && now <= q.items[id].expiresAt
    ensures forall id :: id in Cleaned(q, now).items ==> Cleaned(q, now).items[id] == q.items[id]
  {
    hide Kept;
  }

  lemma {:induction false} TakenCounts<E>(q: Queue<E>, limit: nat)
    requires Indexed(q)
    ensures |Taken(q, limit).1| == if limit < |q.items| then limit else |q.items|
    ensures |Taken(q, limit).0.items| == |q.items| - |Taken(q, limit).1|
    decreases |q.order|
  {
    hide Indexed, Taken, Rest;
    IndexedSize(q);
    if q.order == [] || limit == 0 {
      TakenNothing(q, limit);
    } else {
      RestIndexed(q);
      TakenOne(q, limit);
      TakenCounts(Rest(q), limit - 1);
    }
  }

  /** The queue without its oldest event. */
  function Rest<E>(q: Queue<E>): (rest: Queue<E>)
    requires q.order != []
    ensures |rest.order| < |q.order|
  {
    Queue(q.items - {q.order[0]}, q.order[1..])
  }

  lemma TakenNothing<E>(q: Queue<E>, limit: nat)
    requires q.order == [] || limit == 0
    ensures Taken(q, limit) == (q, [])
  {
  }

  lemma TakenOne<E>(q: Queue<E>, limit: nat)
    requires Indexed(q) && q.order != [] && limit > 0
    ensures |Taken(q, limit).1| == |Taken(Rest(q), limit - 1).1| + 1
    ensures Taken(q, limit).0 == Taken(Rest(q), limit - 1).0
  {
    assert q.order[0] in q.order;
  }

  lemma IndexedSize<E>(q: Queue<E>)
    requires Indexed(q)
    ensures q.order == [] ==> |q.items| == 0
    ensures q.order != [] ==> |q.items| == |Rest(q).items| + 1
  {
    assert |q.items| == |q.items.Keys|;
    if q.order == [] {
      assert q.items.Keys == {};
    } else {
      var less := Rest(q).items;
      assert q.order[0] in q.order && less.Keys == q.items.Keys - {q.order[0]};
      assert |less| == |less.Keys|;
    }
  }

  lemma RestIndexed<E>(q: Queue<E>)
    requires Indexed(q) && q.order != []
    ensures Indexed(Rest(q))
  {
    assert q.order == [q.order[0]] + Rest(q).order;
  }

  /** Main result: after any run a drain returns as many events as have not expired, up to the limit, or
      up to the maximum when the limit makes no sense; the others remain. */
  lemma DrainCounts<E>(ops: seq<Op<E>>, limit: int, now: int, max: nat, ttl: int)
    ensures var q := Run(ops, max, ttl).0;
            var unexpired := set id | id in q.items && now <= q.items[id].expiresAt;
            var (left, events) := Step(q, Drain(limit, now), max, ttl);
            var most := if 1 <= limit <= max then limit else max;
            && |events| == (if most < |unexpired| then most else |unexpired|)
            && |left.items| == |unexpired| - |events|
  {
    hide Cleaned, Taken, Indexed, Run;
    var q := Run(ops, max, ttl).0;
    CleanedIndexed(ops, now, max, ttl);
    CleanedExactly(q, now);
    TakenCounts(Cleaned(q, now), Limit(limit, max));
    assert |Cleaned(q, now).items| == |Cleaned(q, now).items.Keys|;
  }

  lemma CleanedIndexed<E>(ops: seq<Op<E>>, now: int, max: nat, ttl: int)
    ensures Indexed(Run(ops, max, ttl).0) && Indexed(Cleaned(Run(ops, max, ttl).0, now))
  {
    hide Cleaned, CleanedLedger, InOrder, Conserved, Indexed, Run;
    RunIsLedger(ops, max, ttl);
    CleanKeepsGood(RunLedger(ops, max, ttl), now);
  }

  lemma {:induction false} OrderSize<E>(q: Queue<E>)
    requires Indexed(q)
    ensures |q.order| == |q.items|
    decreases |q.order|
  {
    hide Indexed, Rest;
    IndexedSize(q);
    if q.order != [] {
      RestIndexed(q);
      RestOrder(q);
      OrderSize(Rest(q));
    }
  }

  lemma RestOrder<E>(q: Queue<E>)
    requires q.order != []
    ensures |Rest(q).order| == |q.order| - 1
  {
  }

  lemma {:induction false} EvictedCounts<E>(q: Queue<E>, max: nat)
    requires Indexed(q)
    ensures |q.items| <= max ==> Evicted(q, max) == q
    ensures |q.items| > max ==> |Evicted(q, max).items| == max
    decreases |q.order|
  {
    hide Indexed;
    OrderSize(q);
    if |q.order| > max {
      RestIndexed(q);
      OrderSize(Rest(q));
      EvictedCounts(Rest(q), max);
    }
  }

  /** Main result: after any run, storing an event keeps all others that have not expired, unless there
      is no room for them; then exactly as many stay as the limit allows. */
  lemma AddCounts<E>(ops: seq<Op<E>>, event: Event<E>, now: int, max: nat, ttl: int)
    requires event.traceID != ""
    ensures var q := Run(ops, max, ttl).0;
            var others := set id | id in q.items && id != event.traceID && now <= q.items[id].expiresAt;
            var after := Step(q, Add(event, now), max, ttl).0;
            && (|others| < max ==> after.items.Keys == others + {event.traceID})
            && (|others| >= max ==> |after.items| == max)
  {
    hide *;
    var q := Run(ops, max, ttl).0;
    var clean := Cleaned(q, now);
    var all := Inserted(clean, event, now + ttl);
    AddIs(q, event, now, max, ttl);
    InsertedIndexed(ops, event, now, max, ttl);
    CleanedIndexed(ops, now, max, ttl);
    CleanedExactly(q, now);
    InsertedKeys(clean, event, now + ttl);
    EvictedCounts(all, max);
    var others := set id | id in q.items && id != event.traceID && now <= q.items[id].expiresAt;
    assert all.items.Keys == others + {event.traceID};
    OneMore(all.items, others, event.traceID);
  }

  lemma AddIs<E>(q: Queue<E>, e: Event<E>, now: int, max: nat, ttl: int)
    requires e.traceID != ""
    ensures Step(q, Add(e, now), max, ttl).0 == Evicted(Inserted(Cleaned(q, now), e, now + ttl), max)
  {
    hide Evicted, Inserted, Cleaned;
  }

  lemma OneMore<T>(items: map<string, T>, others: set<string>, id: string)
    requires items.Keys == others + {id} && id !in others
    ensures |items| == |others| + 1
  {
    assert |items| == |items.Keys|;
  }

  lemma InsertedKeys<E>(q: Queue<E>, e: Event<E>, expiresAt: int)
    ensures Inserted(q, e, expiresAt).items.Keys == q.items.Keys + {e.traceID}
  {
  }

  lemma InsertedIndexed<E>(ops: seq<Op<E>>, e: Event<E>, now: int, max: nat, ttl: int)
    ensures Indexed(Inserted(Cleaned(Run(ops, max, ttl).0, now), e, now + ttl))
  {
    hide Cleaned, CleanedLedger, Inserted, InsertedLedger, InOrder, Conserved, Indexed, Run;
    RunIsLedger(ops, max, ttl);
    CleanKeepsGood(RunLedger(ops, max, ttl), now);
    InsertKeepsGood(CleanedLedger(RunLedger(ops, max, ttl), now), e, now + ttl);
  }

  /** Evicted are the oldest: every event that waits was inserted later. */
  ghost predicate OldestEvicted<E>(l: Ledger<E>) {
    forall n, i :: n in l.evicted && 0 <= i < |l.queue| ==> n < l.queue[i].number
  }

  lemma {:induction false} EvictOldest<E>(l: Ledger<E>, max: nat)
    requires OldestEvicted(l) && Ascending(l.queue)
    ensures OldestEvicted(EvictedLedger(l, max))
    decreases |l.queue|
  {
    if |l.queue| > max {
      EvictOldest(l.(items := l.items - {l.queue[0].id}, queue := l.queue[1..],
                     evicted := l.evicted + {l.queue[0].number}), max);
    }
  }

  lemma {:induction false} TakeKeepsOldest<E>(l: Ledger<E>, limit: nat)
    requires OldestEvicted(l)
    ensures OldestEvicted(TakenLedger(l, limit))
    decreases |l.queue|
  {
    if l.queue != [] && limit > 0 {
      TakeKeepsOldest(l.(items := l.items - {l.queue[0].id}, queue := l.queue[1..],
                         drained := l.drained + [l.queue[0]]), limit - 1);
    }
  }

  lemma CleanKeepsOldest<E>(l: Ledger<E>, now: int)
    requires OldestEvicted(l)
    ensures OldestEvicted(CleanedLedger(l, now))
  {
    hide KeptTickets, Fresh;
    KeptAre(l.items, l.queue, now);
    var kept := KeptTickets(l.items, l.queue, now);
    forall n, i | n in l.evicted && 0 <= i < |kept| ensures n < kept[i].number {
      assert kept[i] in l.queue;
    }
  }

  lemma InsertKeepsOldest<E>(l: Ledger<E>, e: Event<E>, expiresAt: int)
    requires OldestEvicted(l) && Conserved(l)
    ensures OldestEvicted(InsertedLedger(l, e, expiresAt))
  {
    forall n | n in l.evicted ensures n < l.next {
      assert Places(l, n) >= 1;
    }
  }

  /** Main result: in every run only the oldest events are evicted. */
  lemma {:induction false} RunEvictsOldest<E>(ops: seq<Op<E>>, max: nat, ttl: int)
    ensures OldestEvicted(RunLedger(ops, max, ttl))
  {
    hide OldestEvicted, CleanedLedger, InsertedLedger, EvictedLedger, TakenLedger, Indexed, Conserved;
    if ops == [] {
      assert OldestEvicted(NewLedger<E>()) by {
        NothingEvicted<E>();
      }
    } else {
      var front, op := ops[..|ops| - 1], ops[|ops| - 1];
      var l := RunLedger(front, max, ttl);
      RunEvictsOldest(front, max, ttl);
      RunIsLedger(front, max, ttl);
      match op {
        case Add(event, now) =>
          var cleaned := CleanedLedger(l, now);
          CleanKeepsOldest(l, now);
          CleanKeepsGood(l, now);
          InsertKeepsOldest(cleaned, event, now + ttl);
          InsertKeepsGood(cleaned, event, now + ttl);
          var inserted := InsertedLedger(cleaned, event, now + ttl);
          AscendingParts(inserted.drained, inserted.queue);
          EvictOldest(inserted, max);
        case Drain(limit, now) =>
          CleanKeepsOldest(l, now);
          TakeKeepsOldest(CleanedLedger(l, now), Limit(limit, max));
        case Pending(now) =>
          CleanKeepsOldest(l, now);
      }
    }
  }

  lemma NothingEvicted<E>()
    ensures OldestEvicted(NewLedger<E>())
  {
  }
}
