/** The close protocol of a UDP listener (pkg/stream/manager.go). */
module UdpListener {
  // udpListenerState, createUDPSession and runUDPSession: read loops that dial an upstream
  // and store a session for it, one goroutine per stored session, and any number of close
  // calls.

  import opened Counting

  /** A session object, and the id it is stored under. */
  type Obj = nat
  type SessionId = string

  datatype Loop =
    | Reading
    | Handling                // a packet is read
    | Dialled(obj: Obj)       // upstream dialled, storeSession still to come
    | Leaving                 // returns; the deferred Done still to come
    | Exited

  datatype Phase =
    | Candidate               // dialled, not stored (yet)
    | Relaying                // stored, its goroutine runs
    | Shut                    // its goroutine has closed the upstream
    | Removed                 // and taken it out of the table
    | Finished                // and called Done

  datatype Session = Session(id: SessionId, phase: Phase)

  datatype Closer =
    | Called
    | Marked(sessions: set<Obj>)
    | Waiting
    | Returned(waited: bool)

  datatype State = State(
    closing: bool,
    wg: int,
    table: map<SessionId, Obj>,
    reading: bool,
    loops: map<nat, Loop>,
    sessions: map<Obj, Session>,
    closers: map<nat, Closer>,
    upstreams: set<Obj>)      // sessions whose upstream connection is open

  datatype Step =
    | Read(l: nat)
    | Handled(l: nat)                 // for a session in the table, or the dial fails
    | Dial(l: nat, obj: Obj, id: SessionId)
    | ReadFails(l: nat)
    | Store(l: nat)
    | LoopDone(l: nat)
    | WriteFails(obj: Obj)            // handleUDPPacket closes a stored session's upstream
    | RelayEnds(obj: Obj)
    | Remove(obj: Obj)
    | SessionDone(obj: Obj)
    | CallClose(k: nat)
    | Mark(k: nat)
    | CloseAll(k: nat)
    | WaitReturns(k: nat)

  ghost predicate Init(s: State) {
    && !s.closing && s.reading && s.table == map[] && s.sessions == map[] && s.closers == map[] && s.upstreams == {}
    && (forall l :: l in s.loops ==> s.loops[l] == Reading)
    && s.wg == |s.loops|
  }

  ghost predicate InPhase(s: State, obj: Obj, phase: Phase) {
    obj in s.sessions && s.sessions[obj].phase == phase
  }

  ghost predicate Enabled(s: State, step: Step) {
    match step
    case Read(l) => s.reading && l in s.loops && s.loops[l] == Reading
    case Handled(l) => l in s.loops && s.loops[l] == Handling
    case Dial(l, obj, id) => l in s.loops && s.loops[l] == Handling && obj !in s.sessions
    case ReadFails(l) => l in s.loops && s.loops[l] == Reading
    case Store(l) => l in s.loops && s.loops[l].Dialled? && s.loops[l].obj in s.sessions
    case LoopDone(l) => l in s.loops && s.loops[l] == Leaving
    case WriteFails(obj) => InPhase(s, obj, Relaying)
    case RelayEnds(obj) => InPhase(s, obj, Relaying)
    case Remove(obj) => InPhase(s, obj, Shut)
    case SessionDone(obj) => InPhase(s, obj, Removed)
    case CallClose(k) => k !in s.closers
    case Mark(k) => k in s.closers && s.closers[k] == Called
    case CloseAll(k) => k in s.closers && s.closers[k].Marked?
    case WaitReturns(k) => k in s.closers && s.closers[k] == Waiting && s.wg == 0
  }

  ghost function WithPhase(sessions: map<Obj, Session>, obj: Obj, phase: Phase): map<Obj, Session>
    requires obj in sessions
  {
    sessions[obj := Session(sessions[obj].id, phase)]
  }

  ghost function Apply(s: State, step: Step): State
    requires Enabled(s, step)
  {
    match step
    case Read(l) => s.(loops := s.loops[l := Handling])
    case Handled(l) => s.(loops := s.loops[l := Reading])
    case Dial(l, obj, id) =>
      s.(loops := s.loops[l := Dialled(obj)], sessions := s.sessions[obj := Session(id, Candidate)],
         upstreams := s.upstreams + {obj})
    case ReadFails(l) => s.(loops := s.loops[l := Leaving])
    case Store(l) =>
      var obj := s.loops[l].obj;
      var id := s.sessions[obj].id;
      if s.closing || id in s.table then s.(loops := s.loops[l := Reading], upstreams := s.upstreams - {obj})
      else s.(loops := s.loops[l := Reading], table := s.table[id := obj], wg := s.wg + 1,
              sessions := WithPhase(s.sessions, obj, Relaying))
    case LoopDone(l) => s.(loops := s.loops[l := Exited], wg := s.wg - 1)
    case WriteFails(obj) => s.(upstreams := s.upstreams - {obj})
    case RelayEnds(obj) => s.(upstreams := s.upstreams - {obj}, sessions := WithPhase(s.sessions, obj, Shut))
    case Remove(obj) =>
      var id := s.sessions[obj].id;
      s.(table := if id in s.table && s.table[id] == obj then s.table - {id} else s.table,
         sessions := WithPhase(s.sessions, obj, Removed))
    case SessionDone(obj) => s.(wg := s.wg - 1, sessions := WithPhase(s.sessions, obj, Finished))
    case CallClose(k) => s.(closers := s.closers[k := Called])
    case Mark(k) =>
      if s.closing then s.(closers := s.closers[k := Returned(false)])
      else s.(closing := true, closers := s.closers[k := Marked(s.table.Values)])
    case CloseAll(k) =>
      s.(reading := false, upstreams := s.upstreams - s.closers[k].sessions, closers := s.closers[k := Waiting])
    case WaitReturns(k) => s.(closers := s.closers[k := Returned(true)])
  }

  // ------------------------------------------------------------------
  // The invariant
  // ------------------------------------------------------------------

  /** Sessions stored at some time whose goroutine has not called Done. */
  ghost function Unfinished(sessions: map<Obj, Session>): set<Obj> {
    set o | o in sessions && sessions[o].phase != Candidate && sessions[o].phase != Finished
  }

  ghost predicate Counted(s: State) {
    s.wg == |Short(s.loops, Exited)| + |Unfinished(s.sessions)|
  }

  /** A session that is stored and not yet removed. */
  ghost predicate Live(s: State, obj: Obj) {
    InPhase(s, obj, Relaying) || InPhase(s, obj, Shut)
  }

  /** The table holds exactly the live sessions, each under its id. */
  ghost predicate TableExact(s: State) {
    && (forall id :: id in s.table ==> Live(s, s.table[id]) && s.sessions[s.table[id]].id == id)
    && (forall o :: Live(s, o) ==> s.sessions[o].id in s.table && s.table[s.sessions[o].id] == o)
  }

  ghost predicate HeldByLoop(s: State, obj: Obj) {
    exists l :: l in s.loops && s.loops[l] == Dialled(obj)
  }

  /** What a loop has dialled is a candidate of its own. */
  ghost predicate CandidatesHeld(s: State) {
    && (forall l :: l in s.loops && s.loops[l].Dialled? ==> InPhase(s, s.loops[l].obj, Candidate))
    && HeldApart(s)
  }

  ghost predicate HeldApart(s: State) {
    forall l, m :: l in s.loops && m in s.loops && s.loops[l].Dialled? && s.loops[l] == s.loops[m] ==> l == m
  }

  /** An open upstream belongs to a relaying session or to a candidate in a loop's hands. */
  ghost predicate UpstreamsHeld(s: State) {
    forall o :: o in s.upstreams ==> InPhase(s, o, Relaying) || HeldByLoop(s, o)
  }

  ghost predicate ClosersSane(s: State) {
    && (forall k :: k in s.closers && !s.closers[k].Called? ==> s.closing)
    && (forall k :: k in s.closers && s.closers[k] == Returned(true) ==> s.wg == 0)
  }

  ghost predicate Inv(s: State) {
    Counted(s) && TableExact(s) && CandidatesHeld(s) && UpstreamsHeld(s) && ClosersSane(s)
  }

  lemma {:induction false} InitInv(s: State)
    requires Init(s)
    ensures Inv(s)
  {
    assert Short(s.loops, Exited) == s.loops.Keys && Unfinished(s.sessions) == {};
  }

  lemma {:induction false} SessionMoves(sessions: map<Obj, Session>, o: Obj, x: Session)
    requires o in sessions ==> sessions[o].phase != Finished
    ensures var before := if o in sessions && sessions[o].phase != Candidate then 1 else 0;
            var after := if x.phase != Candidate && x.phase != Finished then 1 else 0;
            |Unfinished(sessions[o := x])| == |Unfinished(sessions)| - before + after
  {
    hide Unfinished;
    SessionEnters(sessions, o, x);
    OneMore(Unfinished(sessions), o);
  }

  lemma OneMore(s: set<Obj>, o: Obj)
    ensures |s + {o}| == |s| + (if o in s then 0 else 1)
    ensures |s - {o}| == |s| - (if o in s then 1 else 0)
  {
    assert o in s ==> s + {o} == s;
  }

  lemma SessionEnters(sessions: map<Obj, Session>, o: Obj, x: Session)
    ensures Unfinished(sessions[o := x])
            == if x.phase != Candidate && x.phase != Finished then Unfinished(sessions) + {o}
               else Unfinished(sessions) - {o}
    ensures o in Unfinished(sessions) <==>
            o in sessions && sessions[o].phase != Candidate && sessions[o].phase != Finished
  {
  }

  lemma {:induction false} StepCounts(s: State, step: Step)
    requires Counted(s) && CandidatesHeld(s) && Enabled(s, step)
    ensures Counted(Apply(s, step))
  {
    hide Short, Unfinished;
    match step {
      case Read(l) => ShortMoves(s.loops, l, Handling, Exited);
      case Handled(l) => ShortMoves(s.loops, l, Reading, Exited);
      case Dial(l, obj, id) =>
        ShortMoves(s.loops, l, Dialled(obj), Exited);
        SessionMoves(s.sessions, obj, Session(id, Candidate));
      case ReadFails(l) => ShortMoves(s.loops, l, Leaving, Exited);
      case Store(l) =>
        ShortMoves(s.loops, l, Reading, Exited);
        var obj := s.loops[l].obj;
        SessionMoves(s.sessions, obj, Session(s.sessions[obj].id, Relaying));
      case LoopDone(l) => ShortMoves(s.loops, l, Exited, Exited);
      case RelayEnds(obj) => SessionMoves(s.sessions, obj, Session(s.sessions[obj].id, Shut));
      case Remove(obj) => SessionMoves(s.sessions, obj, Session(s.sessions[obj].id, Removed));
      case SessionDone(obj) => SessionMoves(s.sessions, obj, Session(s.sessions[obj].id, Finished));
      case _ =>
    }
  }

  lemma {:induction false} StepTable(s: State, step: Step)
    requires TableExact(s) && CandidatesHeld(s) && Enabled(s, step)
    ensures TableExact(Apply(s, step))
  {
    hide TableExact, CandidatesHeld;
    var t := Apply(s, step);
    if step.Remove? {
      ShutIsInTable(s, step.obj);
    }
    match step {
      case Dial(l, obj, id) =>
        SameTable(s, t, obj, Session(id, Candidate));
      case Store(l) =>
        CandidateOf(s, l);
        if s.closing || s.sessions[s.loops[l].obj].id in s.table {
          SameSessions(s, t);
        } else {
          StoredInTable(s, t, s.loops[l].obj);
        }
      case RelayEnds(obj) =>
        ShutInTable(s, t, obj);
      case Remove(obj) =>
        RemovedFromTable(s, t, obj);
      case SessionDone(obj) =>
        SameTable(s, t, obj, Session(s.sessions[obj].id, Finished));
      case _ =>
        SameSessions(s, t);
    }
  }

  lemma ShutIsInTable(s: State, obj: Obj)
    requires TableExact(s) && InPhase(s, obj, Shut)
    ensures s.sessions[obj].id in s.table && s.table[s.sessions[obj].id] == obj
  {
    assert Live(s, obj);
  }

  lemma SameSessions(s: State, t: State)
    requires TableExact(s) && t.table == s.table && t.sessions == s.sessions
    ensures TableExact(t)
  {
    assert forall o :: Live(t, o) <==> Live(s, o);
  }

  lemma {:induction false} ShutInTable(s: State, t: State, obj: Obj)
    requires TableExact(s) && InPhase(s, obj, Relaying)
    requires t.table == s.table && t.sessions == WithPhase(s.sessions, obj, Shut)
    ensures TableExact(t)
  {
    assert forall o :: Live(t, o) <==> Live(s, o);
  }

  lemma CandidateOf(s: State, l: nat)
    requires CandidatesHeld(s) && l in s.loops && s.loops[l].Dialled?
    ensures InPhase(s, s.loops[l].obj, Candidate)
  {
  }

  /** A session that was not live and is not live leaves the table exact. */
  lemma {:induction false} SameTable(s: State, t: State, obj: Obj, x: Session)
    requires TableExact(s) && t.table == s.table && !Live(s, obj) && x.phase != Relaying && x.phase != Shut
    requires t.sessions == s.sessions[obj := x]
    ensures TableExact(t)
  {
    assert forall o :: Live(t, o) <==> Live(s, o);
  }

  lemma {:induction false} StoredInTable(s: State, t: State, obj: Obj)
    requires TableExact(s) && InPhase(s, obj, Candidate) && s.sessions[obj].id !in s.table
    requires t.table == s.table[s.sessions[obj].id := obj] && t.sessions == WithPhase(s.sessions, obj, Relaying)
    ensures TableExact(t)
  {
    assert forall o :: Live(t, o) <==> Live(s, o) || o == obj;
  }

  lemma {:induction false} RemovedFromTable(s: State, t: State, obj: Obj)
    requires TableExact(s) && InPhase(s, obj, Shut)
    requires t.table == s.table - {s.sessions[obj].id} && t.sessions == WithPhase(s.sessions, obj, Removed)
    ensures TableExact(t)
  {
    assert forall o :: Live(t, o) <==> Live(s, o) && o != obj;
  }

  lemma {:induction false} StepCandidates(s: State, step: Step)
    requires CandidatesHeld(s) && Enabled(s, step)
    ensures CandidatesHeld(Apply(s, step))
  {
    StepApart(s, step);
  }

  lemma {:induction false} StepApart(s: State, step: Step)
    requires CandidatesHeld(s) && Enabled(s, step)
    ensures HeldApart(Apply(s, step))
  {
  }

  lemma {:induction false} StepUpstreams(s: State, step: Step)
    requires UpstreamsHeld(s) && CandidatesHeld(s) && Enabled(s, step)
    ensures UpstreamsHeld(Apply(s, step))
  {
    var t := Apply(s, step);
    forall o | o in t.upstreams
      ensures InPhase(t, o, Relaying) || HeldByLoop(t, o)
    {
      if step.Dial? && o == step.obj {
        assert t.loops[step.l] == Dialled(o);
      } else if !InPhase(s, o, Relaying) {
        assert HeldByLoop(s, o);
        var l :| l in s.loops && s.loops[l] == Dialled(o);
        if !(step.Store? && step.l == l) {
          assert t.loops[l] == Dialled(o);
        }
      }
    }
  }

  /** Nothing is counted once closing is set. */
  lemma {:induction false} NoAddAfterClosing(s: State, step: Step)
    requires Enabled(s, step) && s.closing
    ensures Apply(s, step).closing && Apply(s, step).wg <= s.wg && Apply(s, step).table.Keys <= s.table.Keys
  {
  }

  /** What a wait group at zero means. */
  lemma {:induction false} Quiet(s: State)
    requires Counted(s) && s.wg == 0
    ensures forall l :: l in s.loops ==> s.loops[l] == Exited
    ensures forall o :: o in s.sessions ==> s.sessions[o].phase == Candidate || s.sessions[o].phase == Finished
  {
    hide Short;
    NoneShort(s.loops, Exited);
    assert Unfinished(s.sessions) == {};
    assert forall o :: o in s.sessions ==> o !in Unfinished(s.sessions);
  }

  lemma {:induction false} QuietStep(s: State, step: Step)
    requires Counted(s) && Enabled(s, step) && s.wg == 0
    ensures Apply(s, step).wg == 0
  {
    Quiet(s);
  }

  lemma {:induction false} StepClosers(s: State, step: Step)
    requires ClosersSane(s) && Counted(s) && Enabled(s, step)
    ensures ClosersSane(Apply(s, step))
  {
    hide Counted;
    if s.wg == 0 {
      QuietStep(s, step);
    }
    if s.closing {
      NoAddAfterClosing(s, step);
    }
  }

  lemma {:induction false} StepKeeps(s: State, step: Step)
    requires Inv(s) && Enabled(s, step)
    ensures Inv(Apply(s, step))
  {
    hide Enabled, Apply, Counted, TableExact, CandidatesHeld, UpstreamsHeld, ClosersSane;
    StepCounts(s, step);
    StepTable(s, step);
    StepCandidates(s, step);
    StepUpstreams(s, step);
    StepClosers(s, step);
  }

  // ------------------------------------------------------------------
  // Whole runs
  // ------------------------------------------------------------------

  ghost predicate Run(s: State, steps: seq<Step>, t: State)
    decreases |steps|
  {
    if steps == [] then t == s
    else Enabled(s, steps[0]) && Run(Apply(s, steps[0]), steps[1..], t)
  }

  lemma {:induction false} RunKeeps(s: State, steps: seq<Step>, t: State)
    requires Inv(s) && Run(s, steps, t)
    ensures Inv(t)
    decreases |steps|
  {
    hide Inv, Enabled, Apply;
    if steps != [] {
      StepKeeps(s, steps[0]);
      RunKeeps(Apply(s, steps[0]), steps[1..], t);
    }
  }

  /** In every reachable state the wait group counts the live loops and the
      sessions stored and not yet done, and an id has at most one live session. */
  lemma {:induction false} WaitGroupCounts(s: State, steps: seq<Step>, t: State)
    requires Init(s) && Run(s, steps, t)
    ensures t.wg == |Short(t.loops, Exited)| + |Unfinished(t.sessions)| >= 0
    ensures forall o, p :: Live(t, o) && Live(t, p) && t.sessions[o].id == t.sessions[p].id ==> o == p
  {
    hide Run, Enabled, Apply, Short, Unfinished;
    InitInv(s);
    RunKeeps(s, steps, t);
  }

  lemma EmptyTable(t: State)
    requires TableExact(t) && UpstreamsHeld(t) && forall o :: !Live(t, o) && !HeldByLoop(t, o)
    ensures t.table == map[] && t.upstreams == {}
  {
    assert forall o :: !InPhase(t, o, Relaying) by {
      assert forall o :: InPhase(t, o, Relaying) ==> Live(t, o);
    }
  }

  /** When the call of close that set closing returns, and ever after, the table
      is empty, every loop has exited and every upstream ever dialled is closed. */
  lemma {:induction false} CloseLeavesNothing(s: State, steps: seq<Step>, t: State, k: nat)
    requires Init(s) && Run(s, steps, t)
    requires k in t.closers && t.closers[k] == Returned(true)
    ensures t.closing && t.table == map[] && t.upstreams == {}
    ensures forall l :: l in t.loops ==> t.loops[l] == Exited
    ensures forall o :: !Live(t, o)
  {
    hide Run, Enabled, Apply;
    InitInv(s);
    RunKeeps(s, steps, t);
    Quiet(t);
    assert forall o :: !Live(t, o);
    assert forall o :: !HeldByLoop(t, o);
    EmptyTable(t);
  }

  lemma RemovalLeaves(s: State, obj: Obj)
    requires Inv(s) && Enabled(s, Remove(obj))
    ensures var table := Apply(s, Remove(obj)).table;
            && obj !in table.Values
            && forall o :: Live(s, o) && o != obj ==> s.sessions[o].id in table && table[s.sessions[o].id] == o
  {
    hide Counted, CandidatesHeld, UpstreamsHeld, ClosersSane;
    ShutIsInTable(s, obj);
  }

  // ------------------------------------------------------------------
  // The locked sections as methods
  // ------------------------------------------------------------------

  datatype Stored = Refused | Loaded(existing: Obj) | Kept

  /** The fields of udpListenerState that the mutex guards, and the wait group. */
  class UdpListenerState {
    var sessions: map<SessionId, Obj>
    var closing: bool
    var wg: int

    /** The fields are those of a state of the protocol. */
    ghost predicate Shows(s: State)
      reads this
    {
      sessions == s.table && closing == s.closing && wg == s.wg
    }

    /** storeSession, called by the read loop `l`: the Store step. A kept session is live
        afterwards; otherwise the caller gets the live session of that id, if the listener
        is not closing. */
    method StoreSession(id: SessionId, obj: Obj, ghost s: State, ghost l: nat) returns (r: Stored)
      requires Inv(s) && Shows(s) && Enabled(s, Store(l)) && s.loops[l] == Dialled(obj) && id == s.sessions[obj].id
      modifies this
      ensures Shows(Apply(s, Store(l))) && Inv(Apply(s, Store(l)))
      ensures r == Kept <==> Live(Apply(s, Store(l)), obj)
      ensures r.Loaded? <==> !s.closing && exists o :: Live(s, o) && s.sessions[o].id == id
      ensures r.Loaded? ==> Live(s, r.existing) && s.sessions[r.existing].id == id
    {
      StepKeeps(s, Store(l));
      if closing {
        return Refused;
      }
      if id in sessions {
        assert Live(s, s.table[id]);
        return Loaded(sessions[id]);
      }
      sessions := sessions[id := obj];
      wg := wg + 1;
      return Kept;
    }

    /** removeSession, run by the session's goroutine: the Remove step. Every other live session
        stays in the table under its id. */
    method RemoveSession(id: SessionId, obj: Obj, ghost s: State)
      requires Inv(s) && Shows(s) && Enabled(s, Remove(obj)) && id == s.sessions[obj].id
      modifies this`sessions
      ensures Shows(Apply(s, Remove(obj))) && Inv(Apply(s, Remove(obj)))
      ensures obj !in sessions.Values
      ensures forall o :: Live(s, o) && o != obj ==> s.sessions[o].id in sessions && sessions[s.sessions[o].id] == o
    {
      hide Inv, Live;
      StepKeeps(s, Remove(obj));
      RemovalLeaves(s, obj);
      if id in sessions && sessions[id] == obj {
        sessions := sessions - {id};
      }
    }
  }
}
