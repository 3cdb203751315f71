/** Concurrent Reconcile and Stop calls (pkg/stream/manager.go). */
module StreamReconcile {
  // A call works in steps: a snapshot of the keys under the read lock, one bind per
  // address family without the lock, a commit under the lock, and one socket after the
  // other closed outside it. Steps of any number of calls interleave freely; the operating
  // system lets one listener hold a socket.


  datatype Protocol = TCP | UDP

  datatype Key = Key(protocol: Protocol, port: nat)

  datatype Rule = Rule(key: Key, target: string, useAuth: bool)

  /** The two addresses a listener binds: 0.0.0.0, and :: if it can. */
  datatype Socket = V4(key: Key) | V6(key: Key)

  /** A listener state object. */
  type Id = nat

  datatype Call =
    | Started(next: map<Key, Rule>)
    | Binding(next: map<Key, Rule>, toAdd: seq<Key>, toRemove: set<Key>, created: map<Key, Id>)
    | BindingV6(next: map<Key, Rule>, toAdd: seq<Key>, toRemove: set<Key>, created: map<Key, Id>, id: Id)
    | Closing(pending: set<Id>, ok: bool)
    | Stopping
    | Returned(ok: bool)

  datatype State = State(
    listeners: map<Key, Id>,
    rules: map<Key, Rule>,
    closed: bool,
    calls: map<nat, Call>,
    ports: map<Socket, Id>,
    made: map<Id, Key>)

  const INIT := State(map[], map[], false, map[], map[], map[])

  datatype Step =
    | CallReconcile(c: nat, next: map<Key, Rule>)
    | CallStop(c: nat)
    | Snapshot(c: nat, order: seq<Key>)
    | BindV4(c: nat, ok: bool, id: Id)
    | BindV6(c: nat, ok: bool)
    | Commit(c: nat)
    | Stop(c: nat)
    | Close(c: nat, id: Id, socket: Socket)
    | Closed(c: nat, id: Id)
    | Return(c: nat)

  ghost predicate NoDuplicates<T>(s: seq<T>) {
    forall i, j :: 0 <= i < j < |s| ==> s[i] != s[j]
  }

  ghost function Elements<T>(s: seq<T>): set<T> {
    set x | x in s
  }

  /** The ports without those of one listener. */
  ghost function Release(ports: map<Socket, Id>, id: Id): map<Socket, Id> {
    map s | s in ports && ports[s] != id :: ports[s]
  }

  /** The map a commit leaves: created listeners in, removed keys out. */
  ghost function Committed(listeners: map<Key, Id>, created: map<Key, Id>, toRemove: set<Key>): map<Key, Id> {
    (listeners + created) - toRemove
  }

  /** The listeners a commit takes out of the map. */
  ghost function Removed(listeners: map<Key, Id>, created: map<Key, Id>, toRemove: set<Key>): set<Id> {
    set k | k in listeners + created && k in toRemove :: (listeners + created)[k]
  }

  /** When a step can happen. */
  ghost predicate Enabled(s: State, step: Step) {
    match step
    case CallReconcile(c, next) => c !in s.calls
    case CallStop(c) => c !in s.calls
    case Snapshot(c, order) =>
      c in s.calls && s.calls[c].Started? &&
      NoDuplicates(order) && Elements(order) == s.calls[c].next.Keys - s.listeners.Keys
    case BindV4(c, ok, id) =>
      c in s.calls && s.calls[c].Binding? && s.calls[c].toAdd != [] &&
      (ok ==> V4(s.calls[c].toAdd[0]) !in s.ports && id !in s.made)
    case BindV6(c, ok) =>
      c in s.calls && s.calls[c].BindingV6? && s.calls[c].toAdd != [] && (ok ==> V6(s.calls[c].toAdd[0]) !in s.ports)
    case Commit(c) => c in s.calls && s.calls[c].Binding? && s.calls[c].toAdd == []
    case Stop(c) => c in s.calls && s.calls[c].Stopping?
    case Close(c, id, socket) =>
      c in s.calls && s.calls[c].Closing? && id in s.calls[c].pending && socket in s.ports && s.ports[socket] == id
    case Closed(c, id) =>
      c in s.calls && s.calls[c].Closing? && id in s.calls[c].pending && !Open(s, id)
    case Return(c) => c in s.calls && s.calls[c].Closing? && s.calls[c].pending == {}
  }

  /** What a step does. */
  ghost function Apply(s: State, step: Step): State
    requires Enabled(s, step)
  {
    match step
    case CallReconcile(c, next) => s.(calls := s.calls[c := Started(next)])
    case CallStop(c) => s.(calls := s.calls[c := Stopping])
    case Snapshot(c, order) =>
      var next := s.calls[c].next;
      if s.closed then s.(calls := s.calls[c := Returned(false)])
      else s.(calls := s.calls[c := Binding(next, order, s.listeners.Keys - next.Keys, map[])])
    case BindV4(c, ok, id) =>
      var Binding(next, toAdd, toRemove, created) := s.calls[c];
      if !ok then s.(calls := s.calls[c := Closing(created.Values, false)])
      else s.(calls := s.calls[c := BindingV6(next, toAdd, toRemove, created, id)],
              ports := s.ports[V4(toAdd[0]) := id], made := s.made[id := toAdd[0]])
    case BindV6(c, ok) =>
      var BindingV6(next, toAdd, toRemove, created, id) := s.calls[c];
      s.(calls := s.calls[c := Binding(next, toAdd[1..], toRemove, created[toAdd[0] := id])],
         ports := if ok then s.ports[V6(toAdd[0]) := id] else s.ports)
    case Commit(c) =>
      var Binding(next, _, toRemove, created) := s.calls[c];
      if s.closed then s.(calls := s.calls[c := Closing(created.Values, false)])
      else s.(listeners := Committed(s.listeners, created, toRemove), rules := next,
              calls := s.calls[c := Closing(Removed(s.listeners, created, toRemove), true)])
    case Stop(c) =>
      if s.closed then s.(calls := s.calls[c := Closing({}, true)])
      else s.(listeners := map[], rules := map[], closed := true,
              calls := s.calls[c := Closing(s.listeners.Values, true)])
    case Close(c, id, socket) => s.(ports := s.ports - {socket})
    case Closed(c, id) => s.(calls := s.calls[c := Closing(s.calls[c].pending - {id}, s.calls[c].ok)])
    case Return(c) => s.(calls := s.calls[c := Returned(s.calls[c].ok)])
  }

  // ------------------------------------------------------------------
  // Who owns a listener
  // ------------------------------------------------------------------

  datatype Place = InMap(key: Key) | InCreated(c: nat, key: Key) | InBind(c: nat) | InPending(c: nat)

  /** The created map of a call that still binds. */
  ghost function CreatedOf(call: Call): map<Key, Id> {
    match call
    case Binding(_, _, _, created) => created
    case BindingV6(_, _, _, created, _) => created
    case _ => map[]
  }

  ghost predicate Holds(s: State, p: Place, id: Id) {
    match p
    case InMap(k) => k in s.listeners && s.listeners[k] == id
    case InCreated(c, k) => c in s.calls && k in CreatedOf(s.calls[c]) && CreatedOf(s.calls[c])[k] == id
    case InBind(c) => c in s.calls && s.calls[c].BindingV6? && s.calls[c].id == id
    case InPending(c) => c in s.calls && s.calls[c].Closing? && id in s.calls[c].pending
  }

  ghost predicate Owned(s: State, id: Id) {
    exists p :: Holds(s, p, id)
  }

  /** A listener that holds a socket. */
  ghost predicate Open(s: State, id: Id) {
    exists socket :: socket in s.ports && s.ports[socket] == id
  }

  /** A listener bound to the IPv4 address of its key. */
  ghost predicate BoundToKey(s: State, id: Id) {
    id in s.made && V4(s.made[id]) in s.ports && s.ports[V4(s.made[id])] == id
  }

  /** A listener that is not waiting to be closed is bound to the address of its key, and a map
      holds it under that key. */
  ghost predicate HeldIsOpen(s: State) {
    forall p, id :: Holds(s, p, id) ==>
      && id in s.made
      && (!p.InPending? ==> BoundToKey(s, id))
      && (p.InMap? || p.InCreated? ==> p.key == s.made[id])
  }

  ghost predicate OneOwner(s: State) {
    forall p, q, id :: Holds(s, p, id) && Holds(s, q, id) ==> p == q
  }

  ghost predicate OpenIsOwned(s: State) {
    forall socket :: socket in s.ports ==>
      Owned(s, s.ports[socket]) && s.ports[socket] in s.made && s.made[s.ports[socket]] == socket.key
  }

  /** What a call still has to bind is new to it. */
  ghost predicate BindingSane(s: State) {
    forall c :: c in s.calls ==>
      match s.calls[c]
      case Binding(next, toAdd, toRemove, created) =>
        NoDuplicates(toAdd) && (forall k :: k in toAdd ==> k !in created) &&
        toRemove !! next.Keys && created.Keys + Elements(toAdd) <= next.Keys
      case BindingV6(next, toAdd, toRemove, created, id) =>
        toAdd != [] && id in s.made && s.made[id] == toAdd[0] &&
        NoDuplicates(toAdd) && (forall k :: k in toAdd ==> k !in created) &&
        toRemove !! next.Keys && created.Keys + Elements(toAdd) <= next.Keys
      case _ => true
  }

  ghost predicate Inv(s: State) {
    HeldIsOpen(s) && OneOwner(s) && OpenIsOwned(s) && BindingSane(s) &&
    (s.closed ==> s.listeners == map[] && s.rules == map[])
  }

  // ------------------------------------------------------------------
  // Every step keeps the invariant
  // ------------------------------------------------------------------

  /** A step that moves no listener and touches no port. */
  lemma {:induction false} KeepsPlaces(s: State, t: State)
    requires Inv(s) && t.ports == s.ports && t.made == s.made
    requires t.listeners == s.listeners && t.rules == s.rules && t.closed == s.closed
    requires forall p, id :: Holds(t, p, id) <==> Holds(s, p, id)
    requires BindingSane(t)
    ensures Inv(t)
  {
    hide Holds, BindingSane;
    forall socket | socket in t.ports
      ensures Owned(t, t.ports[socket])
    {
      var p :| Holds(s, p, s.ports[socket]);
      assert Holds(t, p, s.ports[socket]);
    }
  }

  /** A step after which the call holds nothing, as before. */
  lemma {:induction false} IdleStep(s: State, c: nat, call: Call)
    requires Inv(s)
    requires c in s.calls ==>
               s.calls[c].Started? || s.calls[c].Stopping? || (s.calls[c].Closing? && s.calls[c].pending == {})
    requires !call.BindingV6? && CreatedOf(call) == map[] && (call.Closing? ==> call.pending == {})
    requires call.Binding? ==>
               NoDuplicates(call.toAdd) && call.toRemove !! call.next.Keys && Elements(call.toAdd) <= call.next.Keys
    ensures Inv(s.(calls := s.calls[c := call]))
  {
    var t := s.(calls := s.calls[c := call]);
    assert forall p, id :: Holds(t, p, id) <==> Holds(s, p, id);
    assert BindingSane(t);
    KeepsPlaces(s, t);
  }

  /** Listeners that change hands: `from` says where the holder of a listener
      was, no two new places come from one, and every old place leads somewhere. */
  lemma {:induction false} Rehoused(s: State, t: State)
    requires Inv(s) && t.ports == s.ports && t.made == s.made
    requires forall p, id :: Holds(t, p, id) ==> Owned(s, id) && (!p.InPending? ==> BoundToKey(s, id))
    requires forall p, q, id :: Holds(t, p, id) && Holds(t, q, id) ==> p == q
    requires forall p, id :: Holds(s, p, id) ==> Owned(t, id)
    requires forall p, id :: Holds(t, p, id) && (p.InMap? || p.InCreated?) ==> id in s.made && p.key == s.made[id]
    requires BindingSane(t) && (t.closed ==> t.listeners == map[] && t.rules == map[])
    ensures Inv(t)
  {
    hide Holds, BindingSane;
    forall p, id | Holds(t, p, id)
      ensures id in t.made && (!p.InPending? ==> BoundToKey(t, id))
    {
      var q :| Holds(s, q, id);
    }
    forall socket | socket in t.ports
      ensures Owned(t, t.ports[socket])
    {
      var q :| Holds(s, q, s.ports[socket]);
    }
  }

  /** A call gives up: what it created waits to be closed. */
  lemma {:induction false} GiveUp(s: State, c: nat)
    requires Inv(s) && c in s.calls && s.calls[c].Binding?
    ensures Inv(s.(calls := s.calls[c := Closing(s.calls[c].created.Values, false)]))
  {
    var created := s.calls[c].created;
    var t := s.(calls := s.calls[c := Closing(created.Values, false)]);
    forall p, id | Holds(t, p, id)
      ensures Owned(s, id) && (!p.InPending? ==> Holds(s, p, id))
    {
      if p == InPending(c) {
        var k :| k in created && created[k] == id;
        assert Holds(s, InCreated(c, k), id);
      } else {
        assert Holds(s, p, id);
      }
    }
    forall p, id | Holds(s, p, id)
      ensures Owned(t, id)
    {
      assert Holds(t, if p.InCreated? && p.c == c then InPending(c) else p, id);
    }
    forall p, q, id | Holds(t, p, id) && Holds(t, q, id)
      ensures p == q
    {
      Back(s, c, created, t, p, id);
      Back(s, c, created, t, q, id);
    }
    assert BindingSane(t);
    Rehoused(s, t);
  }

  /** After a call gave up, a listener is pending there exactly when the call had created it. */
  lemma {:induction false} Back(s: State, c: nat, created: map<Key, Id>, t: State, p: Place, id: Id)
    requires Inv(s) && c in s.calls && s.calls[c].Binding? && created == s.calls[c].created
    requires t == s.(calls := s.calls[c := Closing(created.Values, false)]) && Holds(t, p, id)
    ensures p == InPending(c) <==> id in created.Values
    ensures p != InPending(c) ==> Holds(s, p, id)
  {
    if p == InPending(c) {
    } else {
      assert Holds(s, p, id);
      if id in created.Values {
        var k :| k in created && created[k] == id;
        assert Holds(s, InCreated(c, k), id);
      }
    }
  }

  /** A new socket goes to a listener of its own key: the invariant follows from
      where the listeners are. */
  lemma {:induction false} Bound(s: State, t: State, socket: Socket, id: Id, extra: Place, gone: Place)
    requires Inv(s) && socket !in s.ports
    requires t.ports == s.ports || t.ports == s.ports[socket := id]
    requires id in t.made && t.made[id] == socket.key && t.made == s.made[id := socket.key]
    requires V4(socket.key) in t.ports && t.ports[V4(socket.key)] == id
    requires forall p, j :: Holds(t, p, j) <==> (Holds(s, p, j) && p != gone) || (p == extra && j == id)
    requires forall p :: Holds(s, p, id) ==> p == gone
    requires forall j :: Holds(s, gone, j) ==> j == id
    requires id in s.made ==> s.made[id] == socket.key
    requires extra.InBind? || (extra.InCreated? && extra.key == socket.key)
    requires BindingSane(t) && (t.closed ==> t.listeners == map[] && t.rules == map[])
    ensures Inv(t)
  {
    hide Holds, BindingSane;
    forall p, j | Holds(t, p, j)
      ensures j in t.made && (!p.InPending? ==> BoundToKey(t, j))
      ensures p.InMap? || p.InCreated? ==> p.key == t.made[j]
    {
      if j != id {
        assert Holds(s, p, j);
      }
    }
    assert Holds(t, extra, id);
    forall sk | sk in t.ports
      ensures Owned(t, t.ports[sk]) && t.ports[sk] in t.made && t.made[t.ports[sk]] == sk.key
    {
      if t.ports[sk] != id {
        var p :| Holds(s, p, s.ports[sk]);
        assert Holds(t, p, s.ports[sk]);
      }
    }
  }

  /** The IPv4 address is bound: a new listener, held by the call that made it. */
  lemma {:induction false} BoundV4(s: State, c: nat, key: Key, call: Call, t: State)
    requires Inv(s) && c in s.calls && s.calls[c].Binding? && s.calls[c].toAdd != [] && key == s.calls[c].toAdd[0]
    requires V4(key) !in s.ports && call.BindingV6? && call.id !in s.made
    requires call.toAdd == s.calls[c].toAdd && call.created == s.calls[c].created
    requires call.next == s.calls[c].next && call.toRemove == s.calls[c].toRemove
    requires t == s.(calls := s.calls[c := call], ports := s.ports[V4(key) := call.id], made := s.made[call.id := key])
    ensures Inv(t)
  {
    var id := call.id;
    SaneV4(s, c, key, call, t);
    PlacesV4(s, c, call, t);
    hide BindingSane, Holds;
    assert forall p :: !Holds(s, p, id);
    Bound(s, t, V4(key), id, InBind(c), InBind(c));
  }

  lemma {:induction false} PlacesV4(s: State, c: nat, call: Call, t: State)
    requires c in s.calls && s.calls[c].Binding? && call.BindingV6? && call.created == s.calls[c].created
    requires t.calls == s.calls[c := call] && t.listeners == s.listeners
    ensures forall p, j :: Holds(t, p, j) <==> (Holds(s, p, j) && p != InBind(c)) || (p == InBind(c) && j == call.id)
    ensures forall j :: !Holds(s, InBind(c), j)
  {
  }

  lemma {:induction false} SaneV4(s: State, c: nat, key: Key, call: Call, t: State)
    requires Inv(s) && c in s.calls && s.calls[c].Binding? && s.calls[c].toAdd != [] && key == s.calls[c].toAdd[0]
    requires call.BindingV6? && call.id !in s.made
    requires call.toAdd == s.calls[c].toAdd && call.created == s.calls[c].created
    requires call.next == s.calls[c].next && call.toRemove == s.calls[c].toRemove
    requires t.calls == s.calls[c := call] && t.made == s.made[call.id := key]
    ensures BindingSane(t)
  {
  }

  /** The IPv6 address is bound or not; the listener joins the created ones. */
  lemma {:induction false} BoundV6(s: State, c: nat, key: Key, id: Id, call: Call, ok: bool, t: State)
    requires Inv(s) && c in s.calls && s.calls[c].BindingV6? && id == s.calls[c].id
    requires s.calls[c].toAdd != [] && key == s.calls[c].toAdd[0] && (ok ==> V6(key) !in s.ports)
    requires call == Binding(s.calls[c].next, s.calls[c].toAdd[1..], s.calls[c].toRemove, s.calls[c].created[key := id])
    requires t == s.(calls := s.calls[c := call], ports := if ok then s.ports[V6(key) := id] else s.ports)
    ensures Inv(t)
  {
    SaneV6(s, c, key, id, t);
    PlacesV6(s, c, key, id, t);
    hide BindingSane, Holds;
    assert s.made[id := key] == s.made;
    if ok {
      Bound(s, t, V6(key), id, InCreated(c, key), InBind(c));
    } else {
      forall p, j | Holds(t, p, j)
        ensures Owned(s, j) && (!p.InPending? ==> BoundToKey(s, j))
        ensures p.InMap? || p.InCreated? ==> j in s.made && p.key == s.made[j]
      {
        if p != InCreated(c, key) {
          assert Holds(s, p, j);
        }
      }
      forall p, j | Holds(s, p, j)
        ensures Owned(t, j)
      {
        assert Holds(t, if p == InBind(c) then InCreated(c, key) else p, j);
      }
      Rehoused(s, t);
    }
  }

  lemma {:induction false} PlacesV6(s: State, c: nat, key: Key, id: Id, t: State)
    requires c in s.calls && s.calls[c].BindingV6? && id == s.calls[c].id && s.calls[c].toAdd != []
    requires key !in s.calls[c].created && t.listeners == s.listeners
    requires t.calls == s.calls[c := Binding(s.calls[c].next, s.calls[c].toAdd[1..], s.calls[c].toRemove,
                                             s.calls[c].created[key := id])]
    ensures forall p, j :: Holds(t, p, j) <==> (Holds(s, p, j) && p != InBind(c)) || (p == InCreated(c, key) && j == id)
    ensures Holds(s, InBind(c), id) && forall j :: Holds(s, InBind(c), j) ==> j == id
  {
  }

  lemma {:induction false} SaneV6(s: State, c: nat, key: Key, id: Id, t: State)
    requires Inv(s) && c in s.calls && s.calls[c].BindingV6? && id == s.calls[c].id
    requires s.calls[c].toAdd != [] && key == s.calls[c].toAdd[0] && t.made == s.made
    requires t.calls == s.calls[c := Binding(s.calls[c].next, s.calls[c].toAdd[1..], s.calls[c].toRemove,
                                             s.calls[c].created[key := id])]
    ensures BindingSane(t) && id in s.made && s.made[id] == key && key !in s.calls[c].created
  {
    var toAdd := s.calls[c].toAdd;
    assert toAdd[0] in toAdd && Elements(toAdd[1..]) <= Elements(toAdd);
  }

  /** A commit never overwrites a live listener: what a call created is under
      keys that the map does not have. */
  lemma {:induction false} CommitOverwritesNothing(s: State, c: nat)
    requires Inv(s) && c in s.calls
    ensures CreatedOf(s.calls[c]).Keys !! s.listeners.Keys
  {
    var created := CreatedOf(s.calls[c]);
    forall k | k in created && k in s.listeners
      ensures false
    {
      assert Holds(s, InCreated(c, k), created[k]) && Holds(s, InMap(k), s.listeners[k]);
    }
  }

  lemma {:induction false} Committing(s: State, c: nat)
    requires Inv(s) && Enabled(s, Commit(c)) && !s.closed
    ensures Inv(Apply(s, Commit(c)))
  {
    hide Committed, Removed;
    var t := Apply(s, Commit(c));
    SaneOthers(s, c, t);
    hide BindingSane;
    forall p, id | Holds(t, p, id)
      ensures Owned(s, id) && (!p.InPending? ==> BoundToKey(s, id))
      ensures p.InMap? || p.InCreated? ==> id in s.made && p.key == s.made[id]
    {
      CommitBack(s, c, p, id);
    }
    forall p, q, id | Holds(t, p, id) && Holds(t, q, id)
      ensures p == q
    {
      CommitBack(s, c, p, id);
      CommitBack(s, c, q, id);
    }
    forall p, id | Holds(s, p, id)
      ensures Owned(t, id)
    {
      CommitForth(s, c, p, id);
    }
    Rehoused(s, t);
  }

  /** Where a commit puts what was at a place. */
  ghost function CommitPlace(s: State, c: nat, p: Place): Place
    requires c in s.calls && s.calls[c].Binding?
  {
    if p.InMap? && p.key in s.calls[c].toRemove then InPending(c)
    else if p.InCreated? && p.c == c then InMap(p.key)
    else p
  }

  lemma {:induction false} CommitForth(s: State, c: nat, p: Place, id: Id)
    requires Inv(s) && Enabled(s, Commit(c)) && !s.closed && Holds(s, p, id)
    ensures Owned(Apply(s, Commit(c)), id)
  {
    CommitOverwritesNothing(s, c);
    assert Holds(Apply(s, Commit(c)), CommitPlace(s, c, p), id);
  }

  /** Only the call that moves changes what it still has to bind. */
  lemma {:induction false} SaneOthers(s: State, c: nat, t: State)
    requires BindingSane(s) && t.made == s.made
    requires c in t.calls && !t.calls[c].Binding? && !t.calls[c].BindingV6?
    requires forall d :: d in t.calls && d != c ==> d in s.calls && t.calls[d] == s.calls[d]
    ensures BindingSane(t)
  {
  }

  lemma {:induction false} CommitBack(s: State, c: nat, p: Place, id: Id)
    requires Inv(s) && Enabled(s, Commit(c)) && !s.closed && Holds(Apply(s, Commit(c)), p, id)
    ensures exists q :: Holds(s, q, id) && CommitPlace(s, c, q) == p && (!p.InPending? ==> !q.InPending?)
                        && (p.InMap? || p.InCreated? ==> p.key == s.made[id])
  {
    var Binding(next, _, toRemove, created) := s.calls[c];
    CommitOverwritesNothing(s, c);
    match p {
      case InMap(k) =>
        var q := if k in created then InCreated(c, k) else InMap(k);
        assert Holds(s, q, id) && CommitPlace(s, c, q) == p;
      case InPending(d) =>
        if d == c {
          var k :| k in s.listeners + created && k in toRemove && id == (s.listeners + created)[k];
          assert Holds(s, InMap(k), id) && CommitPlace(s, c, InMap(k)) == p;
        } else {
          assert Holds(s, p, id) && CommitPlace(s, c, p) == p;
        }
      case _ =>
        assert Holds(s, p, id) && CommitPlace(s, c, p) == p;
    }
  }

  lemma {:induction false} StoppingAll(s: State, c: nat)
    requires Inv(s) && Enabled(s, Stop(c)) && !s.closed
    ensures Inv(Apply(s, Stop(c)))
  {
    var t := Apply(s, Stop(c));
    forall p, id | Holds(t, p, id)
      ensures exists q :: Holds(s, q, id) && (if q.InMap? then p == InPending(c) else p == q)
    {
      if p == InPending(c) {
        var k :| k in s.listeners && s.listeners[k] == id;
        assert Holds(s, InMap(k), id);
      } else {
        assert Holds(s, p, id) && !p.InMap?;
      }
    }
    forall p, id | Holds(s, p, id)
      ensures Owned(t, id)
    {
      assert Holds(t, if p.InMap? then InPending(c) else p, id);
    }
    assert BindingSane(t);
    Rehoused(s, t);
  }

  /** A listener that is being closed gives back one socket. */
  lemma {:induction false} SocketClosed(s: State, c: nat, id: Id, socket: Socket)
    requires Inv(s) && Enabled(s, Close(c, id, socket))
    ensures Inv(Apply(s, Close(c, id, socket)))
  {
    var t := Apply(s, Close(c, id, socket));
    assert Holds(s, InPending(c), id);
    SameCalls(s, t);
    hide BindingSane, Holds;
    forall sk | sk in t.ports
      ensures Owned(t, t.ports[sk])
    {
      var p :| Holds(s, p, s.ports[sk]);
      assert Holds(t, p, s.ports[sk]);
    }
  }

  lemma SameCalls(s: State, t: State)
    requires t.calls == s.calls && t.listeners == s.listeners && t.made == s.made
    ensures forall p, id :: Holds(t, p, id) <==> Holds(s, p, id)
    ensures BindingSane(t) <==> BindingSane(s)
  {
  }

  /** A listener without sockets is closed. */
  lemma {:induction false} ListenerClosed(s: State, c: nat, id: Id)
    requires Inv(s) && Enabled(s, Closed(c, id))
    ensures Inv(Apply(s, Closed(c, id)))
  {
    var t := Apply(s, Closed(c, id));
    SaneOthers(s, c, t);
    PlacesClosed(s, c, id, t);
    hide BindingSane, Holds;
    assert forall p, j :: Holds(t, p, j) <==> Holds(s, p, j) && j != id;
    forall socket | socket in t.ports
      ensures Owned(t, t.ports[socket])
    {
      assert Open(s, s.ports[socket]);
      var p :| Holds(s, p, s.ports[socket]);
      assert Holds(t, p, s.ports[socket]);
    }
  }

  lemma {:induction false} PlacesClosed(s: State, c: nat, id: Id, t: State)
    requires c in s.calls && s.calls[c].Closing? && id in s.calls[c].pending && t.listeners == s.listeners
    requires t.calls == s.calls[c := Closing(s.calls[c].pending - {id}, s.calls[c].ok)]
    ensures Holds(s, InPending(c), id)
    ensures forall p, j :: Holds(t, p, j) <==> Holds(s, p, j) && !(p == InPending(c) && j == id)
  {
  }

  /** Every step of every call keeps the invariant. */
  lemma {:induction false} StepKeeps(s: State, step: Step)
    requires Inv(s) && Enabled(s, step)
    ensures Inv(Apply(s, step))
  {
    match step {
      case CallReconcile(c, next) => IdleStep(s, c, Started(next));
      case CallStop(c) => IdleStep(s, c, Stopping);
      case Snapshot(c, order) =>
        IdleStep(s, c, Returned(false));
        IdleStep(s, c, Binding(s.calls[c].next, order, s.listeners.Keys - s.calls[c].next.Keys, map[]));
      case BindV4(c, ok, id) =>
        if ok {
          var t := Apply(s, step);
          BoundV4(s, c, s.calls[c].toAdd[0], t.calls[c], t);
        } else {
          GiveUp(s, c);
        }
      case BindV6(c, ok) =>
        var t := Apply(s, step);
        BoundV6(s, c, s.calls[c].toAdd[0], s.calls[c].id, t.calls[c], ok, t);
      case Commit(c) =>
        if s.closed { GiveUp(s, c); } else { Committing(s, c); }
      case Stop(c) =>
        if s.closed { IdleStep(s, c, Closing({}, true)); } else { StoppingAll(s, c); }
      case Close(c, id, socket) => SocketClosed(s, c, id, socket);
      case Closed(c, id) => ListenerClosed(s, c, id);
      case Return(c) => IdleStep(s, c, Returned(s.calls[c].ok));
    }
  }

  // ------------------------------------------------------------------
  // Whole runs
  // ------------------------------------------------------------------

  /** The state after a sequence of steps; None when one of them cannot happen. */
  ghost predicate Run(s: State, steps: seq<Step>, t: State)
    decreases |steps|
  {
    if steps == [] then t == s
    else Enabled(s, steps[0]) && Run(Apply(s, steps[0]), steps[1..], t)
  }

  lemma {:induction false} RunKeeps(s: State, steps: seq<Step>, t: State)
    requires Inv(s) && Run(s, steps, t)
    ensures Inv(t)
    decreases |steps|
  {
    hide Inv, Enabled, Apply;
    if steps != [] {
      StepKeeps(s, steps[0]);
      RunKeeps(Apply(s, steps[0]), steps[1..], t);
    }
  }

  ghost predicate Reaches(s: State, t: State) {
    exists steps :: Run(s, steps, t)
  }

  lemma {:induction false} RunConcat(s: State, xs: seq<Step>, t: State, ys: seq<Step>, u: State)
    requires Run(s, xs, t) && Run(t, ys, u)
    ensures Run(s, xs + ys, u)
    decreases |xs|
  {
    hide Enabled, Apply;
    if xs == [] {
      assert xs + ys == ys;
    } else {
      assert (xs + ys)[1..] == xs[1..] + ys;
      RunConcat(Apply(s, xs[0]), xs[1..], t, ys, u);
    }
  }

  lemma ReachNone(s: State)
    ensures Reaches(s, s)
  {
    assert Run(s, [], s);
  }

  lemma ReachTrans(s: State, t: State, u: State)
    requires Reaches(s, t) && Reaches(t, u)
    ensures Reaches(s, u)
  {
    hide Run;
    var xs :| Run(s, xs, t);
    var ys :| Run(t, ys, u);
    RunConcat(s, xs, t, ys, u);
  }

  lemma ReachStep(s: State, t: State, step: Step)
    requires Reaches(s, t) && Enabled(t, step)
    ensures Reaches(s, Apply(t, step))
  {
    hide Enabled, Apply;
    assert Run(Apply(t, step), [step][1..], Apply(t, step));
    assert Run(t, [step], Apply(t, step));
    ReachTrans(s, t, Apply(t, step));
  }

  lemma InitInv()
    ensures Inv(INIT)
  {
  }

  /** Over all interleavings, every open listener has exactly one owner: the
      map, a call's created set (or the bind in progress), or a pending list. */
  lemma {:induction false} ExactlyOneOwner(steps: seq<Step>, t: State, id: Id)
    requires Run(INIT, steps, t) && Open(t, id)
    ensures exists p :: Holds(t, p, id) && forall q :: Holds(t, q, id) ==> q == p
  {
    hide Enabled, Apply, Run, Holds;
    InitInv();
    RunKeeps(INIT, steps, t);
    var socket :| socket in t.ports && t.ports[socket] == id;
    assert Owned(t, id);
    var p :| Holds(t, p, id);
  }

  /** Once every call has returned, the sockets in use are those of the map's
      listeners, and after a Stop there are none: nothing leaks. */
  lemma {:induction false} NothingLeaks(steps: seq<Step>, t: State)
    requires Run(INIT, steps, t) && forall c :: c in t.calls ==> t.calls[c].Returned?
    ensures forall id :: Open(t, id) <==> id in t.listeners.Values
    ensures t.closed ==> t.ports == map[]
  {
    hide Enabled, Apply, Run;
    InitInv();
    RunKeeps(INIT, steps, t);
    forall id
      ensures Open(t, id) <==> id in t.listeners.Values
    {
      if Open(t, id) {
        var socket :| socket in t.ports && t.ports[socket] == id;
        var p :| Holds(t, p, id);
      }
      if id in t.listeners.Values {
        var k :| k in t.listeners && t.listeners[k] == id;
        assert Holds(t, InMap(k), id);
      }
    }
    assert forall socket :: socket in t.ports ==> Open(t, t.ports[socket]);
    assert t.closed ==> forall socket :: socket !in t.ports;
  }

  /** A closed manager stays closed and empty. */
  lemma {:induction false} ClosedForGood(s: State, steps: seq<Step>, t: State)
    requires Inv(s) && s.closed && Run(s, steps, t)
    ensures t.closed && t.listeners == map[] && t.rules == map[]
    decreases |steps|
  {
    if steps != [] {
      StepKeeps(s, steps[0]);
      ClosedForGood(Apply(s, steps[0]), steps[1..], t);
    }
  }

  /** A call that has committed, or a Stop that has taken the map. */
  predicate OnItsWay(call: Call) {
    (call.Closing? && call.ok) || (call.Returned? && call.ok)
  }

  lemma StepsOn(s: State, step: Step, c: nat)
    requires Enabled(s, step) && c in s.calls && OnItsWay(s.calls[c])
    ensures c in Apply(s, step).calls && OnItsWay(Apply(s, step).calls[c])
  {
  }

  lemma {:induction false} StaysOnItsWay(s: State, steps: seq<Step>, t: State, c: nat)
    requires Run(s, steps, t) && c in s.calls && OnItsWay(s.calls[c])
    ensures c in t.calls && OnItsWay(t.calls[c]) && t.calls[c] != Returned(false)
    decreases |steps|
  {
    hide Enabled, Apply;
    if steps != [] {
      StepsOn(s, steps[0], c);
      StaysOnItsWay(Apply(s, steps[0]), steps[1..], t, c);
    }
  }

  lemma WriterIsOnItsWay(s: State, step: Step)
    requires Enabled(s, step)
    ensures var t := Apply(s, step);
            && step.c in t.calls
            && (OnItsWay(t.calls[step.c]) || (t.listeners == s.listeners && t.rules == s.rules && t.closed == s.closed))
  {
    hide Committed, Removed;
  }

  /** A call that ends in a failure changed neither the map nor the rules at any of its steps. */
  lemma {:induction false} FailingCallChangesNothing(s: State, step: Step, later: seq<Step>, t: State)
    requires Enabled(s, step) && Run(Apply(s, step), later, t)
    requires step.c in t.calls && t.calls[step.c] == Returned(false)
    ensures Apply(s, step).listeners == s.listeners && Apply(s, step).rules == s.rules
    ensures Apply(s, step).closed == s.closed
  {
    hide Run, OnItsWay, Apply, Enabled;
    WriterIsOnItsWay(s, step);
    if OnItsWay(Apply(s, step).calls[step.c]) {
      StaysOnItsWay(Apply(s, step), later, t, step.c);
    }
  }

  // ------------------------------------------------------------------
  // When there is a rule for each listener
  // ------------------------------------------------------------------

  /** A listener for each rule and a rule for each listener. */
  ghost predicate KeysAgree(s: State) {
    s.listeners.Keys == s.rules.Keys
  }

  /** A commit leaves a listener for each rule and no other if and only if the call
      removes all that the map has beyond its rules, and all that it did not bind is in the map. */
  lemma CommitAgreesExactlyWhen(s: State, c: nat)
    requires Inv(s) && Enabled(s, Commit(c)) && !s.closed
    ensures var Binding(next, _, toRemove, created) := s.calls[c];
            KeysAgree(Apply(s, Commit(c)))
            <==> s.listeners.Keys - next.Keys <= toRemove && next.Keys - created.Keys <= s.listeners.Keys
  {
    hide HeldIsOpen, OneOwner, OpenIsOwned;
    var Binding(next, _, toRemove, created) := s.calls[c];
    var left := Committed(s.listeners, created, toRemove);
    assert left.Keys == s.listeners.Keys + created.Keys - toRemove;
    assert toRemove !! next.Keys && created.Keys <= next.Keys;
  }

  /** The steps that write the map and the rules. */
  predicate Writes(step: Step) {
    step.Commit? || step.Stop?
  }

  predicate IsBinding(call: Call) {
    call.Binding? || call.BindingV6?
  }

  /** The plan of a call is the one it would make from the present map. */
  ghost predicate Fresh(s: State, c: nat)
    requires c in s.calls && IsBinding(s.calls[c])
  {
    var call := s.calls[c];
    && call.toRemove == s.listeners.Keys - call.next.Keys
    && call.created.Keys + Elements(call.toAdd) == call.next.Keys - s.listeners.Keys
  }

  lemma FreshStep(s: State, step: Step, c: nat)
    requires Enabled(s, step) && c in s.calls && IsBinding(s.calls[c]) && Fresh(s, c)
    requires c in Apply(s, step).calls && IsBinding(Apply(s, step).calls[c]) && !Writes(step)
    ensures Fresh(Apply(s, step), c)
  {
    if step.BindV6? && step.c == c {
      var toAdd := s.calls[c].toAdd;
      assert toAdd == [toAdd[0]] + toAdd[1..];
      assert Elements(toAdd) == {toAdd[0]} + Elements(toAdd[1..]);
    }
  }

  lemma FreshStart(s: State, c: nat, order: seq<Key>)
    requires Enabled(s, Snapshot(c, order)) && !s.closed
    ensures Fresh(Apply(s, Snapshot(c, order)), c)
  {
  }

  /** Only a snapshot makes a plan. */
  lemma PlanStarts(s: State, step: Step, c: nat)
    requires Enabled(s, step) && c in Apply(s, step).calls && IsBinding(Apply(s, step).calls[c])
    ensures (c in s.calls && IsBinding(s.calls[c])) || (step.Snapshot? && step.c == c && !s.closed)
  {
  }

  lemma {:induction false} RunEnds(s: State, steps: seq<Step>, t: State) returns (m: State)
    requires Run(s, steps, t) && steps != []
    ensures Run(s, steps[..|steps| - 1], m) && Enabled(m, steps[|steps| - 1]) && t == Apply(m, steps[|steps| - 1])
    decreases |steps|
  {
    hide Enabled, Apply;
    if |steps| == 1 {
      m := s;
      assert Run(t, steps[1..], t);
    } else {
      m := RunEnds(Apply(s, steps[0]), steps[1..], t);
      assert steps[1..][..|steps| - 2] == steps[..|steps| - 1][1..];
      assert steps[..|steps| - 1][0] == steps[0];
    }
  }

  /** A call that binds took its snapshot at some step, and its plan is fresh while no step
      after that one writes the map. */
  lemma {:induction false} PlanIsFresh(steps: seq<Step>, t: State, c: nat) returns (i: nat)
    requires Run(INIT, steps, t) && c in t.calls && IsBinding(t.calls[c])
    ensures i < |steps| && steps[i].Snapshot? && steps[i].c == c
    ensures (forall k :: i < k < |steps| ==> !Writes(steps[k])) ==> Fresh(t, c)
    decreases |steps|
  {
    hide Enabled, Apply, Fresh, IsBinding, Writes;
    assert steps != [];
    var n := |steps| - 1;
    var m := RunEnds(INIT, steps, t);
    PlanStarts(m, steps[n], c);
    if c in m.calls && IsBinding(m.calls[c]) {
      i := PlanIsFresh(steps[..n], m, c);
      assert steps[..n][i] == steps[i];
      if forall k :: i < k < |steps| ==> !Writes(steps[k]) {
        assert forall k :: i < k < n ==> steps[..n][k] == steps[k];
        FreshStep(m, steps[n], c);
      }
    } else {
      i := n;
      FreshStart(m, c, steps[n].order);
    }
  }

  /** No commit and no Stop falls between the snapshot of a call and its commit. */
  ghost predicate Undisturbed(steps: seq<Step>) {
    forall i, k, j :: 0 <= i < k < j < |steps| && steps[i].Snapshot? && steps[j] == Commit(steps[i].c) ==>
      !Writes(steps[k])
  }

  /** Main result: calls may bind and close side by side; as long as none commits between the
      snapshot and the commit of another, there is a rule for each listener at all times. */
  lemma {:induction false} UndisturbedRunsAgree(steps: seq<Step>, t: State)
    requires Run(INIT, steps, t) && Undisturbed(steps)
    ensures KeysAgree(t)
    decreases |steps|
  {
    hide Enabled, Apply, Inv, Fresh;
    if steps != [] {
      var n := |steps| - 1;
      var m := RunEnds(INIT, steps, t);
      assert forall i :: 0 <= i < n ==> steps[..n][i] == steps[i];
      UndisturbedRunsAgree(steps[..n], m);
      InitInv();
      RunKeeps(INIT, steps[..n], m);
      if steps[n].Commit? && !m.closed {
        CommitBinds(m, steps[n].c);
        var i := PlanIsFresh(steps[..n], m, steps[n].c);
        assert steps[n] == Commit(steps[i].c);
        FreshCommitAgrees(m, steps[n].c);
      } else {
        KeysKept(m, steps[n]);
      }
    }
  }

  lemma CommitBinds(s: State, c: nat)
    requires Enabled(s, Commit(c))
    ensures c in s.calls && IsBinding(s.calls[c])
  {
  }

  lemma FreshCommitAgrees(s: State, c: nat)
    requires Inv(s) && Enabled(s, Commit(c)) && !s.closed && Fresh(s, c)
    ensures KeysAgree(Apply(s, Commit(c)))
  {
    hide Inv, Committed;
    CommitAgreesExactlyWhen(s, c);
    assert Elements<Key>([]) == {};
  }

  lemma KeysKept(s: State, step: Step)
    requires Enabled(s, step) && KeysAgree(s) && (step.Commit? ==> s.closed)
    ensures KeysAgree(Apply(s, step))
  {
  }
}
