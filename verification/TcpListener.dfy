/** The close protocol of a TCP listener (pkg/stream/manager.go). */
module TcpListener {
  // tcpListenerState: accept loops, connection goroutines and any number of close calls
  // over one mutex, a connection table and a wait group.

  import opened Counting

  type Conn = nat

  datatype Loop =
    | Accepting
    | Holding(conn: Conn)     // accepted, beginConn still to come
    | Leaving                 // returns; the deferred Done still to come
    | Exited

  datatype Serving =
    | Running                 // the handler
    | Ending                  // the handler has closed the client
    | Deleted                 // out of the table, Done still to come
    | Finished

  datatype Closer =
    | Called
    | Marked(conns: set<Conn>)        // closing is set; these connections it will close
    | Waiting                         // everything closed, in wg.Wait
    | Returned(waited: bool)

  datatype State = State(
    closing: bool,
    wg: int,
    table: set<Conn>,
    listening: bool,
    loops: map<nat, Loop>,
    serving: map<Conn, Serving>,
    closers: map<nat, Closer>,
    open: set<Conn>)

  datatype Step =
    | Accept(l: nat, conn: Conn)
    | AcceptFails(l: nat)
    | Begin(l: nat)
    | LoopDone(l: nat)
    | HandlerReturns(conn: Conn)
    | EndDelete(conn: Conn)
    | EndDone(conn: Conn)
    | PeerCloses(conn: Conn)
    | CallClose(k: nat)
    | Mark(k: nat)
    | CloseAll(k: nat)
    | WaitReturns(k: nat)

  /** A listener just made, with an accept loop per bound address. */
  ghost predicate Init(s: State) {
    && !s.closing && s.listening && s.table == {} && s.serving == map[] && s.closers == map[] && s.open == {}
    && (forall l :: l in s.loops ==> s.loops[l] == Accepting)
    && s.wg == |s.loops|
  }

  ghost predicate Enabled(s: State, step: Step) {
    match step
    case Accept(l, conn) =>
      s.listening && l in s.loops && s.loops[l] == Accepting && conn !in s.serving && conn !in s.open &&
      forall m :: m in s.loops ==> s.loops[m] != Holding(conn)
    case AcceptFails(l) => l in s.loops && s.loops[l] == Accepting
    case Begin(l) => l in s.loops && s.loops[l].Holding?
    case LoopDone(l) => l in s.loops && s.loops[l] == Leaving
    case HandlerReturns(conn) => conn in s.serving && s.serving[conn] == Running
    case EndDelete(conn) => conn in s.serving && s.serving[conn] == Ending
    case EndDone(conn) => conn in s.serving && s.serving[conn] == Deleted
    case PeerCloses(conn) => conn in s.serving && s.serving[conn] == Running
    case CallClose(k) => k !in s.closers
    case Mark(k) => k in s.closers && s.closers[k] == Called
    case CloseAll(k) => k in s.closers && s.closers[k].Marked?
    case WaitReturns(k) => k in s.closers && s.closers[k] == Waiting && s.wg == 0
  }

  ghost function Apply(s: State, step: Step): State
    requires Enabled(s, step)
  {
    match step
    case Accept(l, conn) => s.(loops := s.loops[l := Holding(conn)], open := s.open + {conn})
    case AcceptFails(l) => s.(loops := s.loops[l := Leaving])
    case Begin(l) =>
      var conn := s.loops[l].conn;
      if s.closing then s.(loops := s.loops[l := Leaving], open := s.open - {conn})
      else s.(loops := s.loops[l := Accepting], wg := s.wg + 1, table := s.table + {conn},
              serving := s.serving[conn := Running])
    case LoopDone(l) => s.(loops := s.loops[l := Exited], wg := s.wg - 1)
    case HandlerReturns(conn) => s.(serving := s.serving[conn := Ending], open := s.open - {conn})
    case EndDelete(conn) => s.(serving := s.serving[conn := Deleted], table := s.table - {conn})
    case EndDone(conn) => s.(serving := s.serving[conn := Finished], wg := s.wg - 1)
    case PeerCloses(conn) => s.(open := s.open - {conn})
    case CallClose(k) => s.(closers := s.closers[k := Called])
    case Mark(k) =>
      if s.closing then s.(closers := s.closers[k := Returned(false)])
      else s.(closing := true, closers := s.closers[k := Marked(s.table)])
    case CloseAll(k) =>
      s.(listening := false, open := s.open - s.closers[k].conns, closers := s.closers[k := Waiting])
    case WaitReturns(k) => s.(closers := s.closers[k := Returned(true)])
  }

  // ------------------------------------------------------------------
  // The invariant
  // ------------------------------------------------------------------

  /** Counted are the accept loops and the begun connections that have not called Done. */
  ghost predicate Counted(s: State) {
    s.wg == |Short(s.loops, Exited)| + |Short(s.serving, Finished)|
  }

  ghost predicate InTable(s: State, c: Conn) {
    c in s.serving && (s.serving[c] == Running || s.serving[c] == Ending)
  }

  ghost predicate TableExact(s: State) {
    forall c :: c in s.table <==> InTable(s, c)
  }

  /** An accepted connection is new to the serving goroutines. */
  ghost predicate HoldingNew(s: State) {
    forall l :: l in s.loops && s.loops[l].Holding? ==> s.loops[l].conn !in s.serving
  }

  ghost predicate HeldOnce(s: State) {
    forall l, m :: l in s.loops && m in s.loops && s.loops[l].Holding? && s.loops[l] == s.loops[m] ==> l == m
  }

  /** An open connection is in the hands of a handler or of an accept loop. */
  ghost predicate Handled(s: State, c: Conn) {
    (c in s.serving && s.serving[c] == Running) || exists l :: l in s.loops && s.loops[l] == Holding(c)
  }

  ghost predicate OpenHandled(s: State) {
    forall c :: c in s.open ==> Handled(s, c)
  }

  ghost predicate ClosersSane(s: State) {
    && (forall k :: k in s.closers && !s.closers[k].Called? ==> s.closing)
    && (forall k :: k in s.closers && s.closers[k] == Returned(true) ==> s.wg == 0)
  }

  ghost predicate Inv(s: State) {
    Counted(s) && TableExact(s) && HoldingNew(s) && HeldOnce(s) && OpenHandled(s) && ClosersSane(s)
  }

  lemma {:induction false} InitInv(s: State)
    requires Init(s)
    ensures Inv(s)
  {
    assert Short(s.loops, Exited) == s.loops.Keys && Short(s.serving, Finished) == {};
  }

  lemma {:induction false} StepCounts(s: State, step: Step)
    requires Counted(s) && HoldingNew(s) && Enabled(s, step)
    ensures Counted(Apply(s, step))
  {
    hide Short;
    match step {
      case Accept(l, conn) => ShortMoves(s.loops, l, Holding(conn), Exited);
      case AcceptFails(l) => ShortMoves(s.loops, l, Leaving, Exited);
      case Begin(l) =>
        ShortMoves(s.loops, l, if s.closing then Leaving else Accepting, Exited);
        ShortMoves(s.serving, s.loops[l].conn, Running, Finished);
      case LoopDone(l) => ShortMoves(s.loops, l, Exited, Exited);
      case HandlerReturns(conn) => ShortMoves(s.serving, conn, Ending, Finished);
      case EndDelete(conn) => ShortMoves(s.serving, conn, Deleted, Finished);
      case EndDone(conn) => ShortMoves(s.serving, conn, Finished, Finished);
      case _ =>
    }
  }

  lemma {:induction false} StepTable(s: State, step: Step)
    requires TableExact(s) && HoldingNew(s) && HeldOnce(s) && Enabled(s, step)
    ensures TableExact(Apply(s, step)) && HoldingNew(Apply(s, step)) && HeldOnce(Apply(s, step))
  {
  }

  lemma {:induction false} StepOpen(s: State, step: Step)
    requires OpenHandled(s) && HeldOnce(s) && Enabled(s, step)
    ensures OpenHandled(Apply(s, step))
  {
    var t := Apply(s, step);
    forall c | c in t.open
      ensures Handled(t, c)
    {
      if step.Accept? && c == step.conn {
        assert t.loops[step.l] == Holding(c);
      } else if !(c in s.serving && s.serving[c] == Running) {
        assert Handled(s, c);
        var l :| l in s.loops && s.loops[l] == Holding(c);
        if !(step.Begin? && step.l == l) {
          assert t.loops[l] == Holding(c);
        }
      }
    }
  }

  /** Nothing is counted once closing is set: the wait can only get shorter. */
  lemma {:induction false} NoAddAfterClosing(s: State, step: Step)
    requires Enabled(s, step) && s.closing
    ensures Apply(s, step).closing && Apply(s, step).wg <= s.wg && Apply(s, step).table <= s.table
  {
  }

  /** When nothing is counted any more, only close calls move. */
  lemma {:induction false} QuietStep(s: State, step: Step)
    requires Counted(s) && Enabled(s, step) && s.wg == 0
    ensures Apply(s, step).wg == 0
  {
    Quiet(s);
  }

  /** What a wait group at zero means. */
  lemma {:induction false} Quiet(s: State)
    requires Counted(s) && s.wg == 0
    ensures forall l :: l in s.loops ==> s.loops[l] == Exited
    ensures forall c :: c in s.serving ==> s.serving[c] == Finished
  {
    hide Short;
    NoneShort(s.loops, Exited);
    NoneShort(s.serving, Finished);
  }

  lemma {:induction false} StepClosers(s: State, step: Step)
    requires ClosersSane(s) && Counted(s) && Enabled(s, step)
    ensures ClosersSane(Apply(s, step))
  {
    hide Counted;
    if s.wg == 0 {
      QuietStep(s, step);
    }
    if s.closing {
      NoAddAfterClosing(s, step);
    }
  }

  lemma {:induction false} StepKeeps(s: State, step: Step)
    requires Inv(s) && Enabled(s, step)
    ensures Inv(Apply(s, step))
  {
    hide Enabled, Apply, Counted, TableExact, HoldingNew, HeldOnce, OpenHandled, ClosersSane;
    StepCounts(s, step);
    StepTable(s, step);
    StepOpen(s, step);
    StepClosers(s, step);
  }

  // ------------------------------------------------------------------
  // Whole runs
  // ------------------------------------------------------------------

  ghost predicate Run(s: State, steps: seq<Step>, t: State)
    decreases |steps|
  {
    if steps == [] then t == s
    else Enabled(s, steps[0]) && Run(Apply(s, steps[0]), steps[1..], t)
  }

  lemma {:induction false} RunKeeps(s: State, steps: seq<Step>, t: State)
    requires Inv(s) && Run(s, steps, t)
    ensures Inv(t)
    decreases |steps|
  {
    hide Inv, Enabled, Apply;
    if steps != [] {
      StepKeeps(s, steps[0]);
      RunKeeps(Apply(s, steps[0]), steps[1..], t);
    }
  }

  /** In every reachable state the wait group counts the live loops and the
      connections not yet done, and the table holds those still served. */
  lemma {:induction false} WaitGroupCounts(s: State, steps: seq<Step>, t: State)
    requires Init(s) && Run(s, steps, t)
    ensures t.wg == |Short(t.loops, Exited)| + |Short(t.serving, Finished)| >= 0
    ensures forall c :: c in t.table <==> InTable(t, c)
  {
    hide Run, Enabled, Apply, Short;
    InitInv(s);
    RunKeeps(s, steps, t);
  }

  /** When the call of close that set closing returns, and ever after, every loop
      has exited, the table is empty and every connection ever accepted is closed. */
  lemma {:induction false} CloseLeavesNothing(s: State, steps: seq<Step>, t: State, k: nat)
    requires Init(s) && Run(s, steps, t)
    requires k in t.closers && t.closers[k] == Returned(true)
    ensures t.closing && t.table == {} && t.open == {}
    ensures forall l :: l in t.loops ==> t.loops[l] == Exited
    ensures forall c :: c in t.serving ==> t.serving[c] == Finished
  {
    hide Run, Enabled, Apply;
    InitInv(s);
    RunKeeps(s, steps, t);
    Quiet(t);
    assert forall c :: c in t.table ==> InTable(t, c);
    assert forall c :: c in t.open ==> Handled(t, c);
  }

  // ------------------------------------------------------------------
  // Several calls of close
  // ------------------------------------------------------------------

  /** A call of close that closes the listener, or has closed it. */
  ghost predicate Works(s: State, k: nat) {
    k in s.closers && (s.closers[k].Marked? || s.closers[k] == Waiting || s.closers[k] == Returned(true))
  }

  ghost predicate OneWorks(s: State) {
    && (s.closing <==> exists k :: Works(s, k))
    && (forall j, k :: Works(s, j) && Works(s, k) ==> j == k)
    && (forall k :: k in s.closers && s.closers[k] == Returned(false) ==> s.closing)
  }

  lemma WorksStep(s: State, step: Step, k: nat)
    requires Enabled(s, step)
    ensures Works(Apply(s, step), k) <==> Works(s, k) || (!s.closing && step == Mark(k))
  {
  }

  lemma StepOneWorks(s: State, step: Step)
    requires Enabled(s, step) && OneWorks(s)
    ensures OneWorks(Apply(s, step))
  {
    hide Works;
    var t := Apply(s, step);
    forall k
      ensures Works(t, k) <==> Works(s, k) || (!s.closing && step == Mark(k))
    {
      WorksStep(s, step, k);
    }
    if s.closing {
      var k :| Works(s, k);
      assert Works(t, k);
    } else if step.Mark? {
      assert Works(t, step.k);
    }
  }

  lemma {:induction false} RunOneWorks(s: State, steps: seq<Step>, t: State)
    requires OneWorks(s) && Run(s, steps, t)
    ensures OneWorks(t)
    decreases |steps|
  {
    hide OneWorks, Enabled, Apply;
    if steps != [] {
      StepOneWorks(s, steps[0]);
      RunOneWorks(Apply(s, steps[0]), steps[1..], t);
    }
  }

  /** Of any number of calls of close exactly one does the work, from the moment closing is set;
      a call that returned without waiting left the work to another one. */
  lemma {:induction false} OneCallCloses(s: State, steps: seq<Step>, t: State)
    requires Init(s) && Run(s, steps, t)
    ensures t.closing <==> exists k :: Works(t, k)
    ensures forall j, k :: Works(t, j) && Works(t, k) ==> j == k
    ensures forall k :: k in t.closers && t.closers[k] == Returned(false) ==> exists j :: j != k && Works(t, j)
  {
    hide Run, Enabled, Apply;
    RunOneWorks(s, steps, t);
    forall k | k in t.closers && t.closers[k] == Returned(false)
      ensures exists j :: j != k && Works(t, j)
    {
      var j :| Works(t, j);
      assert !Works(t, k);
    }
  }

  // ------------------------------------------------------------------
  // The locked sections as methods
  // ------------------------------------------------------------------

  /** The fields of tcpListenerState that the mutex guards, and the wait group. */
  class TcpListenerState {
    var conns: set<Conn>
    var closing: bool
    var wg: int

    /** The fields are those of a state of the protocol. */
    ghost predicate Shows(s: State)
      reads this
    {
      conns == s.table && closing == s.closing && wg == s.wg
    }

    /** beginConn, called by the accept loop `l`: the Begin step. The caller may serve the
        connection exactly when it is in the table afterwards. */
    method BeginConn(conn: Conn, ghost s: State, ghost l: nat) returns (ok: bool)
      requires Inv(s) && Shows(s) && Enabled(s, Begin(l)) && s.loops[l] == Holding(conn)
      modifies this
      ensures Shows(Apply(s, Begin(l))) && Inv(Apply(s, Begin(l)))
      ensures ok <==> InTable(Apply(s, Begin(l)), conn)
      ensures !ok ==> conn !in Apply(s, Begin(l)).open
    {
      StepKeeps(s, Begin(l));
      if closing {
        return false;
      }
      wg := wg + 1;
      conns := conns + {conn};
      return true;
    }

    /** endConn, run by the connection's goroutine: the steps EndDelete and EndDone. */
    method EndConn(conn: Conn, ghost s: State)
      requires Inv(s) && Shows(s) && Enabled(s, EndDelete(conn))
      modifies this
      ensures var t := Apply(s, EndDelete(conn));
              Enabled(t, EndDone(conn)) && Shows(Apply(t, EndDone(conn))) && Inv(Apply(t, EndDone(conn)))
      ensures forall c :: c in conns <==> c != conn && InTable(s, c)
    {
      StepKeeps(s, EndDelete(conn));
      StepKeeps(Apply(s, EndDelete(conn)), EndDone(conn));
      conns := conns - {conn};
      wg := wg - 1;
    }

    /** The locked part of close, run by the call `k`: the Mark step. The call that does the work
        gets exactly the connections being served; any other one is done. */
    method MarkClosing(ghost s: State, ghost k: nat) returns (mine: bool, snapshot: set<Conn>)
      requires Inv(s) && Shows(s) && Enabled(s, Mark(k))
      modifies this`closing
      ensures Shows(Apply(s, Mark(k))) && Inv(Apply(s, Mark(k)))
      ensures mine <==> Works(Apply(s, Mark(k)), k)
      ensures mine ==> Apply(s, Mark(k)).closers[k] == Marked(snapshot) && forall c :: c in snapshot <==> InTable(s, c)
      ensures !mine ==> Apply(s, Mark(k)).closers[k] == Returned(false)
    {
      StepKeeps(s, Mark(k));
      snapshot := {};
      if closing {
        return false, snapshot;
      }
      closing := true;
      return true, conns;
    }
  }
}
