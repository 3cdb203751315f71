/** The stream manager, one call at a time (pkg/stream/manager.go). */
module StreamManager {
  // Reconcile with its rollback, ReconcileBestEffort and Stop. The interleaving of their
  // steps is in StreamReconcile; a ghost state follows every call through these steps.

  import opened Bytes
  import opened StreamReconcile

  ghost predicate DistinctKeys(rules: seq<Rule>) {
    forall i, j :: 0 <= i < j < |rules| ==> rules[i].key != rules[j].key
  }

  ghost predicate IsSubsequence<T>(a: seq<T>, b: seq<T>) {
    if a == [] then true
    else if b == [] then false
    else if a[|a| - 1] == b[|b| - 1] && IsSubsequence(a[..|a| - 1], b[..|b| - 1]) then true
    else IsSubsequence(a, b[..|b| - 1])
  }

  /** `created` are the listeners made since the sockets were `was`; the new
      sockets are theirs, each under its own key. */
  ghost predicate Extends(was: map<Socket, Id>, wasMade: Id, ports: map<Socket, Id>, made: Id, created: map<Key, Id>) {
    && wasMade <= made
    && (forall k :: k in created ==> wasMade <= created[k] < made && V4(k) in ports && ports[V4(k)] == created[k])
    && (forall k, j :: k in created && j in created && created[k] == created[j] ==> k == j)
    && (forall s :: s in was ==> s in ports && ports[s] == was[s])
    && (forall s :: s in ports && s !in was ==> s.key in created && ports[s] == created[s.key])
  }

  /** One more listener, under a key not bound before. */
  lemma {:induction false} ExtendsOne(was: map<Socket, Id>, wasMade: Id, ports: map<Socket, Id>, made: Id,
                                      created: map<Key, Id>, key: Key, ports': map<Socket, Id>)
    requires Extends(was, wasMade, ports, made, created) && V4(key) !in ports
    requires ports' == ports[V4(key) := made] ||
             (V6(key) !in ports && ports' == ports[V4(key) := made][V6(key) := made])
    ensures Extends(was, wasMade, ports', made + 1, created[key := made])
  {
  }

  /** Closing what was created gives back the sockets as they were. */
  lemma {:induction false} RollBack(was: map<Socket, Id>, wasMade: Id, ports: map<Socket, Id>, made: Id,
                                    created: map<Key, Id>)
    requires Extends(was, wasMade, ports, made, created) && forall s :: s in was ==> was[s] < wasMade
    ensures (map s | s in ports && ports[s] !in created.Values :: ports[s]) == was
    ensures wasMade <= made
  {
    forall s | s in ports
      ensures ports[s] in created.Values <==> s !in was
    {
    }
  }

  ghost function KeysOf(rules: seq<Rule>): set<Key> {
    set i | 0 <= i < |rules| :: rules[i].key
  }

  /** A rule joins those before it unless its key is taken, or its port is refused; the ports held
      at the start need no new bind until the first rule is served. */
  ghost predicate CanJoin(before: seq<Rule>, rule: Rule, refused: set<Key>, held: set<Key>) {
    rule.key !in KeysOf(before) && (rule.key !in refused || (before == [] && rule.key in held))
  }

  /** The rules a best-effort call can serve; the first one served gives up the ports of all
      the others. */
  ghost function Served(wanted: seq<Rule>, refused: set<Key>, held: set<Key>): seq<Rule> {
    if wanted == [] then []
    else
      var before, rule := Served(wanted[..|wanted| - 1], refused, held), wanted[|wanted| - 1];
      if CanJoin(before, rule, refused, held) then before + [rule] else before
  }

  lemma NothingServed(refused: set<Key>, held: set<Key>)
    ensures Served([], refused, held) == [] && IsSubsequence<Rule>([], [])
  {
  }

  lemma ServedJoin(wanted: seq<Rule>, rule: Rule, refused: set<Key>, held: set<Key>)
    ensures var before := Served(wanted, refused, held);
            Served(wanted + [rule], refused, held)
            == if CanJoin(before, rule, refused, held) then before + [rule] else before
  {
    assert (wanted + [rule])[..|wanted|] == wanted;
  }

  lemma SubsequenceJoin(a: seq<Rule>, b: seq<Rule>, rule: Rule)
    requires IsSubsequence(a, b)
    ensures IsSubsequence(a, b + [rule]) && IsSubsequence(a + [rule], b + [rule])
  {
    assert (b + [rule])[..|b|] == b && (a + [rule])[..|a|] == a;
  }

  /** When one more rule can be reconciled on top of those served. */
  lemma JoinsWhen(started: seq<Rule>, rule: Rule, refused: set<Key>, current: set<Key>)
    requires started != [] ==> DistinctKeys(started) && current == KeysOf(started)
    ensures var candidate := started + [rule];
            DistinctKeys(candidate) && KeysOf(candidate) - current !! refused
            <==> rule.key !in KeysOf(started) && (rule.key !in refused || (started == [] && rule.key in current))
  {
    hide KeysOf, DistinctKeys;
    KeysJoin(started, rule);
    NoKeys();
    if started != [] && rule.key !in KeysOf(started) {
      assert KeysOf(started) + {rule.key} - current == {rule.key};
    }
    if started == [] {
      assert KeysOf(started + [rule]) == {rule.key};
    }
  }

  lemma NoKeys()
    ensures KeysOf([]) == {} && DistinctKeys([])
  {
  }

  /** Each rule under its own key, and nothing else. */
  ghost predicate HoldsRules(byKey: map<Key, Rule>, rules: seq<Rule>) {
    && byKey.Keys == KeysOf(rules)
    && forall i :: 0 <= i < |rules| ==> rules[i].key in byKey && byKey[rules[i].key] == rules[i]
  }

  lemma HoldsNext(byKey: map<Key, Rule>, rules: seq<Rule>, rule: Rule)
    requires HoldsRules(byKey, rules)
    ensures rule.key in byKey <==> rule.key in KeysOf(rules)
    ensures rule.key !in byKey ==> HoldsRules(byKey[rule.key := rule], rules + [rule])
  {
    KeysJoin(rules, rule);
  }

  lemma KeysJoin(rules: seq<Rule>, rule: Rule)
    ensures KeysOf(rules + [rule]) == KeysOf(rules) + {rule.key}
    ensures DistinctKeys(rules + [rule]) <==> DistinctKeys(rules) && rule.key !in KeysOf(rules)
  {
    var more := rules + [rule];
    assert forall i :: 0 <= i < |rules| ==> more[i] == rules[i];
    assert more[|rules|] == rule;
  }

  /** The manager's invariant, on the values of its fields. */
  ghost predicate Consistent(listeners: map<Key, Id>, ports: map<Socket, Id>, made: Id) {
    && (forall k :: k in listeners ==> V4(k) in ports && ports[V4(k)] == listeners[k] && listeners[k] < made)
    && (forall s :: s in ports ==> s.key in listeners && listeners[s.key] == ports[s])
    && (forall k, j :: k in listeners && j in listeners && listeners[k] == listeners[j] ==> k == j)
  }

  lemma {:induction false} CreatedJoin(listeners: map<Key, Id>, was: map<Socket, Id>, wasMade: Id,
                                       ports: map<Socket, Id>, made: Id, created: map<Key, Id>)
    requires Consistent(listeners, was, wasMade) && Extends(was, wasMade, ports, made, created)
    requires created.Keys !! listeners.Keys
    ensures Consistent(listeners + created, ports, made)
  {
    var merged := listeners + created;
    forall s | s in ports
      ensures s.key in merged && merged[s.key] == ports[s]
    {
      if s in was {
        assert s.key in listeners && s.key !in created;
      }
    }
  }

  lemma {:induction false} RemovedLeave(listeners: map<Key, Id>, ports: map<Socket, Id>, made: Id, toRemove: set<Key>)
    requires Consistent(listeners, ports, made)
    ensures var removed := set k | k in listeners && k in toRemove :: listeners[k];
            Consistent(listeners - toRemove, map s | s in ports && ports[s] !in removed :: ports[s], made)
  {
    var removed := set k | k in listeners && k in toRemove :: listeners[k];
    forall k | k in listeners
      ensures listeners[k] in removed <==> k in toRemove
    {
    }
  }

  /** A commit, and the closing of what it removed, lead to a consistent state. */
  lemma {:induction false} CommitConsistent(listeners: map<Key, Id>, was: map<Socket, Id>, wasMade: Id,
                                            ports: map<Socket, Id>, made: Id, created: map<Key, Id>, toRemove: set<Key>)
    requires Consistent(listeners, was, wasMade) && Extends(was, wasMade, ports, made, created)
    requires created.Keys !! listeners.Keys
    ensures var removed := Removed(listeners, created, toRemove);
            Consistent(Committed(listeners, created, toRemove),
                       map s | s in ports && ports[s] !in removed :: ports[s], made)
  {
    hide Consistent, Extends;
    CreatedJoin(listeners, was, wasMade, ports, made, created);
    RemovedLeave(listeners + created, ports, made, toRemove);
  }

  lemma MoreMade(listeners: map<Key, Id>, ports: map<Socket, Id>, made: Id, later: Id)
    requires Consistent(listeners, ports, made) && made <= later
    ensures Consistent(listeners, ports, later)
  {
  }

  lemma SocketsAreMade(listeners: map<Key, Id>, ports: map<Socket, Id>, made: Id)
    requires Consistent(listeners, ports, made)
    ensures forall s :: s in ports ==> ports[s] < made && s.key in listeners
  {
  }

  /** Every call has returned. */
  ghost predicate Idle(s: State) {
    forall c :: c in s.calls ==> s.calls[c].Returned?
  }

  /** Every other call has returned. */
  ghost predicate Alone(s: State, c: nat) {
    c in s.calls && forall d :: d in s.calls && d != c ==> s.calls[d].Returned?
  }

  /** A call that binds, with what it has left to bind and what it has made. */
  ghost function Further(call: Call, toAdd: seq<Key>, created: map<Key, Id>): Call
    requires call.Binding?
  {
    Binding(call.next, toAdd, call.toRemove, created)
  }

  lemma AloneFirst(s: State, c: nat, call: Call)
    requires Idle(s) && forall d :: d in s.calls ==> d < c
    ensures c !in s.calls && Alone(s.(calls := s.calls[c := call]), c)
  {
  }

  lemma {:induction false} Unused(taken: set<nat>) returns (c: nat)
    ensures forall d :: d in taken ==> d < c
  {
    if taken == {} {
      c := 0;
    } else {
      var d :| d in taken;
      var m := Unused(taken - {d});
      c := if d < m then m else d + 1;
      assert forall e :: e in taken ==> e == d || e in taken - {d};
    }
  }

  /** No socket is bound under any of the keys. */
  ghost predicate Unbound(ports: map<Socket, Id>, keys: seq<Key>) {
    forall s :: s in ports ==> s.key !in keys
  }

  lemma BindStart(toAdd: seq<Key>, ports: map<Socket, Id>, made: Id)
    ensures toAdd[0..] == toAdd && toAdd[|toAdd|..] == []
    ensures Elements(toAdd[..0]) == {} && Elements(toAdd[..|toAdd|]) == Elements(toAdd)
    ensures Extends(ports, made, ports, made, map[])
  {
    assert toAdd[..|toAdd|] == toAdd;
  }

  lemma BindNext(toAdd: seq<Key>, i: nat, ports: map<Socket, Id>)
    requires i < |toAdd| && NoDuplicates(toAdd) && Unbound(ports, toAdd[i..])
    ensures toAdd[i..] != [] && toAdd[i..][0] == toAdd[i] && toAdd[i..][1..] == toAdd[i + 1..]
    ensures Elements(toAdd[..i + 1]) == Elements(toAdd[..i]) + {toAdd[i]} && toAdd[i] in Elements(toAdd)
    ensures V4(toAdd[i]) !in ports
  {
    assert toAdd[..i + 1] == toAdd[..i] + [toAdd[i]];
    assert toAdd[i] in toAdd[i..];
  }

  lemma UnboundNext(toAdd: seq<Key>, i: nat, ports: map<Socket, Id>, more: map<Socket, Id>)
    requires i < |toAdd| && NoDuplicates(toAdd) && Unbound(ports, toAdd[i..])
    requires forall s :: s in more ==> s in ports || s.key == toAdd[i]
    ensures Unbound(more, toAdd[i + 1..])
  {
    assert toAdd[i..] == [toAdd[i]] + toAdd[i + 1..];
    assert toAdd[i] !in toAdd[i + 1..];
  }

  lemma NoneListened(ports: map<Socket, Id>, current: set<Key>, keys: set<Key>, order: seq<Key>)
    requires Elements(order) == keys && keys !! current && forall s :: s in ports ==> s.key in current
    ensures Unbound(ports, order)
  {
    assert forall k :: k in order ==> k in Elements(order);
  }

  lemma CommittedKeys(listeners: map<Key, Id>, created: map<Key, Id>, next: set<Key>)
    requires created.Keys == next - listeners.Keys
    ensures Committed(listeners, created, listeners.Keys - next).Keys == next
    ensures forall k :: k in listeners && k in next ==>
              Committed(listeners, created, listeners.Keys - next)[k] == listeners[k]
  {
  }

  lemma NothingListened(ports: map<Socket, Id>, made: Id)
    ensures Consistent(map[], ports, made) <==> ports == map[]
  {
    if Consistent(map[], ports, made) {
      assert forall s :: s !in ports;
    }
  }

  lemma AllClosed(listeners: map<Key, Id>, ports: map<Socket, Id>, made: Id)
    requires Consistent(listeners, ports, made)
    ensures (map s | s in ports && ports[s] !in listeners.Values :: ports[s]) == map[]
  {
    assert forall s :: s in ports ==> ports[s] in listeners.Values;
  }

  lemma FewerPorts(ports: map<Socket, Id>, socket: Socket)
    requires socket in ports
    ensures |ports - {socket}| < |ports|
  {
    assert (ports - {socket}).Keys == ports.Keys - {socket};
    assert |ports - {socket}| == |(ports - {socket}).Keys| && |ports| == |ports.Keys|;
  }

  class Manager {
    var listeners: map<Key, Id>
    var rules: map<Key, Rule>
    var closed: bool
    /** The sockets of this process, and the number of listeners made so far. */
    var ports: map<Socket, Id>
    var made: Id
    /** The state of the interleaved system. */
    ghost var now: State

    ghost predicate Shows()
      reads this
    {
      && now.listeners == listeners && now.rules == rules && now.closed == closed && now.ports == ports
      && forall id :: id in now.made ==> id < made
    }

    /** Between calls the sockets in use are exactly those of the listeners in
        the map, each bound to its own key, and there is a rule for each. The state is one
        that the interleaved system reaches. */
    ghost predicate Valid()
      reads this
    {
      && Consistent(listeners, ports, made)
      && listeners.Keys == rules.Keys
      && (closed ==> listeners == map[])
      && Shows() && Reaches(INIT, now) && Idle(now)
    }

    /** The call `c`, begun in the state `start`, is under way. */
    ghost predicate Follows(start: State, c: nat)
      reads this
    {
      Shows() && Reaches(start, now) && Alone(now, c)
    }

    /** Where the call is. */
    ghost function Mine(c: nat): Call
      reads this`now
    {
      if c in now.calls then now.calls[c] else Returned(false)
    }

    constructor ()
      ensures Valid() && listeners == map[] && rules == map[] && !closed
    {
      listeners, rules, closed, ports, made := map[], map[], false, map[], 0;
      now := INIT;
      ReachNone(INIT);
    }

    ghost method Take(step: Step, start: State)
      requires Enabled(now, step) && Reaches(start, now)
      modifies this`now
      ensures now == Apply(old(now), step) && Reaches(start, now)
    {
      ReachStep(start, now, step);
      now := Apply(now, step);
    }

    /** newTCPListenerState and newUDPListenerState: the IPv4 address must be had, which the
        operating system refuses for the keys `refused`; the IPv6 address is optional. */
    method NewManagedListener(key: Key, refused: set<Key>, ghost start: State, ghost c: nat) returns (id: Option<Id>)
      requires Follows(start, c) && Mine(c).Binding? && Mine(c).toAdd != [] && Mine(c).toAdd[0] == key
      modifies this`ports, this`made, this`now
      ensures Follows(start, c)
      ensures id == None ==> Mine(c) == Closing(old(Mine(c)).created.Values, false)
      ensures id.Some? ==>
                var was := old(Mine(c));
                Mine(c) == Further(was, was.toAdd[1..], was.created[key := id.value])
      ensures id.Some? <==> V4(key) !in old(ports) && key !in refused
      ensures id == None ==> ports == old(ports) && made == old(made)
      ensures id.Some? ==>
                && id.value == old(made) && made == old(made) + 1 && V4(key) !in old(ports)
                && (ports == old(ports)[V4(key) := id.value] ||
                    (V6(key) !in old(ports) && ports == old(ports)[V4(key) := id.value][V6(key) := id.value]))
    {
      hide Reaches;
      var refused6 := *;
      if V4(key) in ports || key in refused {
        Take(BindV4(c, false, 0), start);
        return None;
      }
      Take(BindV4(c, true, made), start);
      ports := ports[V4(key) := made];
      refused6 := refused6 || V6(key) in ports;
      Take(BindV6(c, !refused6), start);
      if !refused6 {
        ports := ports[V6(key) := made];
      }
      id := Some(made);
      made := made + 1;
    }

    /** The sockets of a listener are closed one after the other. */
    method CloseOne(id: Id, ghost start: State, ghost c: nat)
      requires Follows(start, c) && Mine(c).Closing? && id in Mine(c).pending
      modifies this`ports, this`now
      ensures Follows(start, c)
      ensures Mine(c) == Closing(old(Mine(c)).pending - {id}, old(Mine(c)).ok)
      ensures ports == Release(old(ports), id)
    {
      hide Reaches;
      while exists s :: s in ports && ports[s] == id
        invariant Follows(start, c) && Mine(c) == old(Mine(c))
        invariant forall s :: s in ports ==> s in old(ports) && ports[s] == old(ports)[s]
        invariant forall s :: s in old(ports) && old(ports)[s] != id ==> s in ports
        decreases |ports|
      {
        var socket :| socket in ports && ports[socket] == id;
        Take(Close(c, id, socket), start);
        FewerPorts(ports, socket);
        ports := ports - {socket};
      }
      Take(Closed(c, id), start);
    }

    /** Close the listeners of a set, in any order. */
    method CloseAll(ids: set<Id>, ghost start: State, ghost c: nat)
      requires Follows(start, c) && Mine(c).Closing? && Mine(c).pending == ids
      modifies this`ports, this`now
      ensures Follows(start, c) && Mine(c) == Closing({}, old(Mine(c)).ok)
      ensures ports == map s | s in old(ports) && old(ports)[s] !in ids :: old(ports)[s]
    {
      hide Follows;
      var todo := ids;
      while todo != {}
        invariant todo <= ids
        invariant ports == map s | s in old(ports) && old(ports)[s] !in ids - todo :: old(ports)[s]
        invariant Follows(start, c) && Mine(c) == Closing(todo, old(Mine(c)).ok)
      {
        var id :| id in todo;
        CloseOne(id, start, c);
        todo := todo - {id};
      }
    }

    /** The rules by key, or nothing when two rules share a key. */
    method PlanRules(next: seq<Rule>) returns (r: Option<map<Key, Rule>>)
      ensures r.Some? <==> DistinctKeys(next)
      ensures r.Some? ==> r.value.Keys == KeysOf(next)
      ensures r.Some? ==> forall i :: 0 <= i < |next| ==> next[i].key in r.value && r.value[next[i].key] == next[i]
    {
      var byKey: map<Key, Rule> := map[];
      for i := 0 to |next|
        invariant DistinctKeys(next[..i]) && HoldsRules(byKey, next[..i])
      {
        assert next[..i + 1] == next[..i] + [next[i]];
        var rule := next[i];
        KeysJoin(next[..i], rule);
        HoldsNext(byKey, next[..i], rule);
        if rule.key in byKey {
          return None;
        }
        byKey := byKey[rule.key := rule];
      }
      assert next[..|next|] == next;
      return Some(byKey);
    }

    /** A call gives up: it closes what it has made since the sockets were `was`. */
    method Abandon(created: map<Key, Id>, ghost was: map<Socket, Id>, ghost wasMade: Id, ghost start: State,
                   ghost c: nat)
      requires Follows(start, c) && Mine(c) == Closing(created.Values, false)
      requires Extends(was, wasMade, ports, made, created) && forall s :: s in was ==> was[s] < wasMade
      modifies this`ports, this`now
      ensures Follows(start, c) && Mine(c) == Closing({}, false)
      ensures ports == was && wasMade <= made
    {
      hide Extends, Follows;
      RollBack(was, wasMade, ports, made, created);
      CloseAll(created.Values, start, c);
    }

    /** Bind the new keys one after the other; on a failure the listeners made
        so far are closed again, and the sockets are as before. */
    method BindAll(toAdd: seq<Key>, refused: set<Key>, ghost start: State, ghost c: nat)
      returns (r: Option<map<Key, Id>>)
      requires Follows(start, c) && NoDuplicates(toAdd) && Unbound(ports, toAdd)
      requires forall s :: s in ports ==> ports[s] < made
      requires Mine(c).Binding? && Mine(c).toAdd == toAdd && Mine(c).created == map[]
      modifies this`ports, this`made, this`now
      ensures r.Some? <==> Elements(toAdd) !! refused
      ensures r == None ==> ports == old(ports) && made >= old(made)
      ensures r.Some? ==> r.value.Keys == Elements(toAdd) && Extends(old(ports), old(made), ports, made, r.value)
      ensures Follows(start, c)
      ensures r == None ==> Mine(c) == Closing({}, false)
      ensures r.Some? ==> Mine(c) == Further(old(Mine(c)), [], r.value)
    {
      hide Follows, NoDuplicates, Extends, Elements, Unbound;
      var created: map<Key, Id> := map[];
      BindStart(toAdd, ports, made);
      for i := 0 to |toAdd|
        invariant created.Keys == Elements(toAdd[..i]) && created.Keys !! refused
        invariant Extends(old(ports), old(made), ports, made, created)
        invariant Unbound(ports, toAdd[i..])
        invariant Follows(start, c) && Mine(c) == Further(old(Mine(c)), toAdd[i..], created)
      {
        BindNext(toAdd, i, ports);
        var key := toAdd[i];
        ghost var before, before' := ports, made;
        var id := NewManagedListener(key, refused, start, c);
        if id == None {
          Abandon(created, old(ports), old(made), start, c);
          return None;
        }
        UnboundNext(toAdd, i, before, ports);
        ExtendsOne(old(ports), old(made), before, before', created, key, ports);
        created := created[key := id.value];
      }
      return Some(created);
    }

    method InstallCreated(created: map<Key, Id>)
      modifies this`listeners
      ensures listeners == old(listeners) + created
    {
      var todo := created.Keys;
      while todo != {}
        invariant todo <= created.Keys
        invariant listeners == old(listeners) + (map k | k in created && k !in todo :: created[k])
      {
        var key :| key in todo;
        listeners := listeners[key := created[key]];
        todo := todo - {key};
      }
    }

    method TakeOut(toRemove: set<Key>) returns (removed: set<Id>)
      modifies this`listeners
      ensures listeners == old(listeners) - toRemove
      ensures removed == set k | k in old(listeners) && k in toRemove :: old(listeners)[k]
    {
      removed := {};
      var todo := toRemove;
      while todo != {}
        invariant todo <= toRemove
        invariant listeners == old(listeners) - (toRemove - todo)
        invariant removed == set k | k in old(listeners) && k in toRemove && k !in todo :: old(listeners)[k]
      {
        var key :| key in todo;
        if key in listeners {
          removed := removed + {listeners[key]};
          listeners := listeners - {key};
        }
        todo := todo - {key};
      }
    }

    /** The section of Reconcile under the lock. */
    method Commit(created: map<Key, Id>, nextRules: map<Key, Rule>, toRemove: set<Key>, ghost start: State,
                  ghost c: nat)
      returns (removed: set<Id>)
      requires Follows(start, c) && !closed && Mine(c) == Binding(nextRules, [], toRemove, created)
      modifies this`listeners, this`rules, this`now
      ensures Follows(start, c) && Mine(c) == Closing(removed, true)
      ensures listeners == Committed(old(listeners), created, toRemove) && rules == nextRules
      ensures removed == Removed(old(listeners), created, toRemove)
    {
      hide Reaches;
      Take(StreamReconcile.Commit(c), start);
      InstallCreated(created);
      rules := nextRules;
      removed := TakeOut(toRemove);
    }

    /** The keys to bind, in some order. */
    method InOrder(keys: set<Key>) returns (order: seq<Key>)
      ensures NoDuplicates(order) && Elements(order) == keys
    {
      order := [];
      var todo := keys;
      while todo != {}
        invariant todo <= keys && NoDuplicates(order) && Elements(order) == keys - todo
      {
        var key :| key in todo;
        assert Elements(order + [key]) == Elements(order) + {key};
        assert key !in order;
        order := order + [key];
        todo := todo - {key};
      }
    }

    /** A call begins: the first step of a new one, in a state without others. */
    ghost method Begin(stop: bool, next: map<Key, Rule>) returns (c: nat)
      requires Shows() && Idle(now)
      modifies this`now
      ensures Follows(old(now), c) && Mine(c) == if stop then Stopping else Started(next)
      ensures now.made == old(now).made
    {
      hide Idle, Alone, Reaches;
      c := Unused(now.calls.Keys);
      AloneFirst(now, c, if stop then Stopping else Started(next));
      ReachNone(now);
      if stop {
        Take(CallStop(c), now);
      } else {
        Take(CallReconcile(c, next), now);
      }
    }

    /** A call of Reconcile begins and takes its snapshot; on a closed manager it has ended. */
    ghost method BeginReconcile(next: map<Key, Rule>, toAdd: seq<Key>) returns (c: nat)
      requires Shows() && Idle(now) && Reaches(INIT, now)
      requires NoDuplicates(toAdd) && Elements(toAdd) == next.Keys - listeners.Keys
      modifies this`now
      ensures closed ==> Shows() && Idle(now) && Reaches(INIT, now) && Reaches(old(now), now)
      ensures !closed ==> Follows(old(now), c) && Mine(c) == Binding(next, toAdd, listeners.Keys - next.Keys, map[])
    {
      hide Reaches, NoDuplicates, Elements;
      c := Begin(false, next);
      Take(Snapshot(c, toAdd), old(now));
      ReachTrans(INIT, old(now), now);
    }

    /** A call of Stop begins, and takes the map unless the manager is closed. */
    ghost method BeginStop() returns (c: nat)
      requires Shows() && Idle(now)
      modifies this`now
      ensures Reaches(old(now), now) && Alone(now, c)
      ensures Mine(c) == Closing(if closed then {} else listeners.Values, true)
      ensures closed ==> Follows(old(now), c)
      ensures !closed ==>
                && now.listeners == map[] && now.rules == map[] && now.closed
                && now.ports == old(now).ports && now.made == old(now).made
    {
      hide Reaches;
      c := Begin(true, map[]);
      Take(StreamReconcile.Stop(c), old(now));
    }

    ghost method Finish(start: State, c: nat)
      requires Follows(start, c) && Mine(c).Closing? && Mine(c).pending == {} && Reaches(INIT, start)
      modifies this`now
      ensures Shows() && Idle(now) && Reaches(start, now) && Reaches(INIT, now)
      ensures Mine(c) == Returned(old(Mine(c)).ok)
    {
      hide Reaches;
      Take(Return(c), start);
      ReachTrans(INIT, start, now);
    }

    /** Reconcile, for rules that passed normalisation. It succeeds unless the manager is
        closed, two rules share a key, or a new key's port is refused. On success the
        listeners are those of the rules and those kept are the same objects; on failure
        nothing has changed, not even the sockets in use. The call is a run of the
        interleaved system. */
    method Reconcile(next: seq<Rule>, refused: set<Key>) returns (ok: bool)
      requires Valid()
      modifies this
      ensures Valid() && closed == old(closed) && Reaches(old(now), now)
      ensures ok <==> !closed && DistinctKeys(next) && KeysOf(next) - old(listeners).Keys !! refused
      ensures ok ==> rules.Keys == listeners.Keys == KeysOf(next)
      ensures ok ==> forall i :: 0 <= i < |next| ==> next[i].key in rules && rules[next[i].key] == next[i]
      ensures ok ==> forall k :: k in old(listeners) && k in listeners ==> listeners[k] == old(listeners)[k]
      ensures !ok ==> listeners == old(listeners) && rules == old(rules) && ports == old(ports)
    {
      hide Consistent, Extends, DistinctKeys, Removed, Committed, Reaches, Shows, Idle, Follows, Mine;
      hide NoDuplicates, Elements, Unbound;
      ReachNone(now);
      var plan := PlanRules(next);
      if plan == None {
        return false;
      }
      var nextRules := plan.value;
      var currentKeys := listeners.Keys;
      ghost var start := now;
      var toAdd := InOrder(nextRules.Keys - currentKeys);
      ghost var c := BeginReconcile(nextRules, toAdd);
      if closed {
        return false;
      }
      SocketsAreMade(listeners, ports, made);
      NoneListened(ports, currentKeys, nextRules.Keys - currentKeys, toAdd);
      var toRemove := currentKeys - nextRules.Keys;
      var bound := BindAll(toAdd, refused, start, c);
      if bound == None {
        MoreMade(listeners, ports, old(made), made);
        Finish(start, c);
        return false;
      }
      CommitConsistent(listeners, old(ports), old(made), ports, made, bound.value, toRemove);
      var removed := Commit(bound.value, nextRules, toRemove, start, c);
      CloseAll(removed, start, c);
      Finish(start, c);
      CommittedKeys(old(listeners), bound.value, nextRules.Keys);
      return true;
    }

    /** ReconcileBestEffort: rules are tried one by one on top of those that started; those
        that cannot be served, and only those, are skipped with a warning each. */
    method ReconcileBestEffort(wanted: seq<Rule>, refused: set<Key>) returns (started: seq<Rule>, warnings: nat)
      requires Valid()
      modifies this
      ensures Valid() && closed == old(closed) && Reaches(old(now), now)
      ensures started == if closed then [] else Served(wanted, refused, old(listeners).Keys)
      ensures |started| + warnings == |wanted| && IsSubsequence(started, wanted)
      ensures started == [] ==> listeners == old(listeners) && rules == old(rules) && ports == old(ports)
      ensures started != [] ==>
                && DistinctKeys(started) && rules.Keys == listeners.Keys == KeysOf(started)
                && forall i :: 0 <= i < |started| ==> started[i].key in rules && rules[started[i].key] == started[i]
    {
      hide Consistent, DistinctKeys, KeysOf, IsSubsequence, Served, Reaches, Idle, Shows;
      ReachNone(now);
      started, warnings := [], 0;
      NothingServed(refused, listeners.Keys);
      assert wanted[..0] == [];
      for i := 0 to |wanted|
        invariant Valid() && closed == old(closed) && Reaches(old(now), now)
        invariant |started| + warnings == i && IsSubsequence(started, wanted[..i])
        invariant started == if closed then [] else Served(wanted[..i], refused, old(listeners).Keys)
        invariant started == [] ==> listeners == old(listeners) && rules == old(rules) && ports == old(ports)
        invariant started != [] ==>
                    && DistinctKeys(started) && rules.Keys == listeners.Keys == KeysOf(started)
                    && forall j :: 0 <= j < |started| ==>
                         started[j].key in rules && rules[started[j].key] == started[j]
      {
        assert wanted[..i + 1] == wanted[..i] + [wanted[i]];
        SubsequenceJoin(started, wanted[..i], wanted[i]);
        ServedJoin(wanted[..i], wanted[i], refused, old(listeners).Keys);
        JoinsWhen(started, wanted[i], refused, listeners.Keys);
        var candidate := started + [wanted[i]];
        ghost var before := now;
        var ok := Reconcile(candidate, refused);
        ReachTrans(old(now), before, now);
        if ok {
          started := candidate;
        } else {
          warnings := warnings + 1;
        }
      }
      assert wanted[..|wanted|] == wanted;
    }

    /** Stop: afterwards nothing is bound, and no later Reconcile succeeds. */
    method Stop()
      requires Valid()
      modifies this
      ensures Valid() && closed && listeners == map[] && rules == map[] && ports == map[]
      ensures Reaches(old(now), now)
    {
      hide Reaches, Consistent;
      NothingListened(ports, made);
      AllClosed(listeners, ports, made);
      NothingListened(map[], made);
      ghost var start := now;
      ghost var c := BeginStop();
      if closed {
        Finish(start, c);
        return;
      }
      closed := true;
      var states := listeners.Values;
      listeners := map[];
      rules := map[];
      CloseAll(states, start, c);
      Finish(start, c);
    }
  }

  // ------------------------------------------------------------------
  // Overlapping calls
  // ------------------------------------------------------------------

  lemma {:induction false} RunFour(s: State, xs: seq<Step>, a: State, b: State, c: State, d: State)
    requires |xs| == 4
    requires Enabled(s, xs[0]) && a == Apply(s, xs[0]) && Enabled(a, xs[1]) && b == Apply(a, xs[1])
    requires Enabled(b, xs[2]) && c == Apply(b, xs[2]) && Enabled(c, xs[3]) && d == Apply(c, xs[3])
    ensures Run(s, xs, d)
  {
    hide Enabled, Apply;
    assert xs[1..][0] == xs[1] && xs[2..][0] == xs[2] && xs[3..][0] == xs[3];
    assert Run(d, xs[4..], d);
    assert xs[3..][1..] == xs[4..];
    assert Run(c, xs[3..], d);
    assert xs[2..][1..] == xs[3..];
    assert Run(b, xs[2..], d);
    assert xs[1..][1..] == xs[2..];
    assert Run(a, xs[1..], d);
  }

  const K1 := Key(TCP, 1)
  const K2 := Key(TCP, 2)
  const RULES1 := map[K1 := Rule(K1, "", false)]
  const RULES2 := map[K2 := Rule(K2, "", false)]

  /** Two calls, for the ports 1 and 2, that both take their snapshot first. */
  const SNAPSHOTS: seq<Step> :=
    [CallReconcile(0, RULES1), CallReconcile(1, RULES2), Snapshot(0, [K1]), Snapshot(1, [K2])]
  const FIRST_CALL: seq<Step> := [BindV4(0, true, 0), BindV6(0, false), Commit(0), Return(0)]
  const SECOND_CALL: seq<Step> := [BindV4(1, true, 1), BindV6(1, false), Commit(1), Return(1)]

  const PLANNED := State(map[], map[], false,
                         map[0 := Binding(RULES1, [K1], {}, map[]), 1 := Binding(RULES2, [K2], {}, map[])],
                         map[], map[])
  const FIRST_DONE := State(map[K1 := 0], RULES1, false,
                            map[0 := Returned(true), 1 := Binding(RULES2, [K2], {}, map[])],
                            map[V4(K1) := 0], map[0 := K1])
  const BOTH_DONE := State(map[K1 := 0, K2 := 1], RULES2, false,
                           map[0 := Returned(true), 1 := Returned(true)], map[V4(K1) := 0, V4(K2) := 1],
                           map[0 := K1, 1 := K2])

  lemma {:induction false} BothPlan()
    ensures Run(INIT, SNAPSHOTS, PLANNED)
  {
    assert Elements([K1]) == {K1} && Elements([K2]) == {K2};
    var a := Apply(INIT, SNAPSHOTS[0]);
    var b := Apply(a, SNAPSHOTS[1]);
    assert RULES1.Keys == {K1} && RULES2.Keys == {K2} && b.listeners == map[];
    assert RULES1.Keys - b.listeners.Keys == {K1} && b.listeners.Keys - RULES1.Keys == {};
    var c := Apply(b, SNAPSHOTS[2]);
    assert RULES2.Keys - c.listeners.Keys == {K2} && c.listeners.Keys - RULES2.Keys == {};
    assert PLANNED == Apply(c, SNAPSHOTS[3]);
    RunFour(INIT, SNAPSHOTS, a, b, c, PLANNED);
  }

  /** After its only listener is bound. */
  ghost function AfterBind(s: State, c: nat, key: Key, next: map<Key, Rule>, id: Id): State {
    s.(calls := s.calls[c := Binding(next, [], {}, map[key := id])], ports := s.ports[V4(key) := id],
       made := s.made[id := key])
  }

  lemma {:induction false} Binds(s: State, c: nat, key: Key, next: map<Key, Rule>, id: Id)
    requires c in s.calls && s.calls[c] == Binding(next, [key], {}, map[]) && V4(key) !in s.ports && id !in s.made
    ensures var a := Apply(s, BindV4(c, true, id));
            Enabled(a, BindV6(c, false)) && Apply(a, BindV6(c, false)) == AfterBind(s, c, key, next, id)
  {
    var a := Apply(s, BindV4(c, true, id));
    assert [key][1..] == [];
    assert a.calls[c := Binding(next, [], {}, map[key := id])] == s.calls[c := Binding(next, [], {}, map[key := id])];
  }

  lemma {:induction false} Commits(s: State, c: nat, key: Key, next: map<Key, Rule>, id: Id)
    requires c in s.calls && s.calls[c] == Binding(next, [], {}, map[key := id]) && !s.closed && key !in s.listeners
    ensures var a := Apply(s, Commit(c));
            && Enabled(a, Return(c))
            && Apply(a, Return(c))
               == s.(listeners := s.listeners[key := id], rules := next, calls := s.calls[c := Returned(true)])
  {
    assert Removed(s.listeners, map[key := id], {}) == {};
    assert Committed(s.listeners, map[key := id], {}) == s.listeners[key := id];
    assert s.calls[c := Closing({}, true)][c := Returned(true)] == s.calls[c := Returned(true)];
  }

  /** A call that planned to add one key, run to its end. */
  lemma {:induction false} Finishes(s: State, c: nat, key: Key, next: map<Key, Rule>, id: Id)
    requires c in s.calls && s.calls[c] == Binding(next, [key], {}, map[]) && !s.closed
    requires V4(key) !in s.ports && id !in s.made && key !in s.listeners
    ensures Run(s, [BindV4(c, true, id), BindV6(c, false), Commit(c), Return(c)],
                State(s.listeners[key := id], next, false, s.calls[c := Returned(true)], s.ports[V4(key) := id],
                      s.made[id := key]))
  {
    var xs := [BindV4(c, true, id), BindV6(c, false), Commit(c), Return(c)];
    var b := AfterBind(s, c, key, next, id);
    Binds(s, c, key, next, id);
    Commits(b, c, key, next, id);
    assert Enabled(s, xs[0]) && Enabled(b, xs[2]);
    hide Enabled, Apply;
    var e := Apply(Apply(b, xs[2]), xs[3]);
    assert e.calls == s.calls[c := Returned(true)];
    RunFour(s, xs, Apply(s, xs[0]), b, Apply(b, xs[2]), e);
  }

  /** Two calls that overlap can both succeed and leave a listener without a
      rule: the second commits what it planned before the first committed. */
  lemma {:induction false} OverlappingCallsDisagree()
    ensures Run(INIT, SNAPSHOTS + FIRST_CALL + SECOND_CALL, BOTH_DONE)
    ensures forall c :: c in BOTH_DONE.calls ==> BOTH_DONE.calls[c] == Returned(true)
    ensures BOTH_DONE.listeners.Keys != BOTH_DONE.rules.Keys
  {
    hide Run, Enabled, Apply;
    BothPlan();
    Finishes(PLANNED, 0, K1, RULES1, 0);
    assert FIRST_DONE == State(PLANNED.listeners[K1 := 0], RULES1, false, PLANNED.calls[0 := Returned(true)],
                               PLANNED.ports[V4(K1) := 0], PLANNED.made[0 := K1]);
    Finishes(FIRST_DONE, 1, K2, RULES2, 1);
    assert BOTH_DONE == State(FIRST_DONE.listeners[K2 := 1], RULES2, false, FIRST_DONE.calls[1 := Returned(true)],
                              FIRST_DONE.ports[V4(K2) := 1], FIRST_DONE.made[1 := K2]);
    RunConcat(INIT, SNAPSHOTS, PLANNED, FIRST_CALL, FIRST_DONE);
    RunConcat(INIT, SNAPSHOTS + FIRST_CALL, FIRST_DONE, SECOND_CALL, BOTH_DONE);
    assert K1 in BOTH_DONE.listeners && K1 !in BOTH_DONE.rules;
  }
}
