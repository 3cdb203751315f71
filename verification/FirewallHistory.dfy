/** Runs of firewall operations (pkg/iptables/manager.go). */
module FirewallHistory {
  // On one table (lines 761-865 and 909-1183): the shape of the chain, and its verdicts as
  // a history of decisions.

  import opened Bytes
  import opened FirewallChain

  // ------------------------------------------------------------------
  // Runs and their decisions
  // ------------------------------------------------------------------

  /** Neither a built-in local prefix nor the all-addresses prefix. */
  predicate Ordinary(f: Family, src: Source) {
    src.bits > 0 && src !in LocalSources(f)
  }

  predicate Covered(f: Family, op: Op) {
    match op
    case Flush(support) => support != Fails
    case Decide(src, _) => Ordinary(f, src)
    case Remove(src) => Ordinary(f, src)
    case _ => true
  }

  /** A run starts with a successful set-up. */
  predicate Proper(f: Family, ops: seq<Op>) {
    && ops != []
    && ops[0].Flush?
    && forall i :: 0 <= i < |ops| ==> Covered(f, ops[i])
  }

  function After(f: Family, exempt: seq<nat>, ops: seq<Op>): Table {
    if ops == [] then Table([], false)
    else Step(f, exempt, After(f, exempt, ops[..|ops| - 1]), ops[|ops| - 1])
  }

  /** What an operation decides, or takes back. */
  function Target(op: Op): Option<Match> {
    match op
    case Decide(src, _) => Some(From(src))
    case Remove(src) => Some(From(src))
    case DecidePort(src, port, _) => Some(FromToPort(src, port))
    case RemovePort(src, port) => Some(FromToPort(src, port))
    case _ => None
  }

  predicate Decision(op: Op) {
    op.Decide? || op.DecidePort?
  }

  /** A decision stands while no later operation has the same target or flushes. */
  predicate Stands(ops: seq<Op>, i: nat)
    requires i < |ops|
  {
    && Decision(ops[i])
    && forall j :: i < j < |ops| ==> !ops[j].Flush? && Target(ops[j]) != Target(ops[i])
  }

  predicate Applies(f: Family, ops: seq<Op>, i: nat, p: Packet)
    requires i < |ops|
  {
    Stands(ops, i) && Matches(f, Target(ops[i]).value, p)
  }

  /** The latest of the first `n` operations that is a standing decision about the packet. */
  function Latest(f: Family, ops: seq<Op>, n: nat, p: Packet): (i: int)
    requires n <= |ops|
    ensures -1 <= i < n
    ensures i >= 0 ==> Applies(f, ops, i, p) && Decision(ops[i])
    ensures forall j :: i < j < n ==> !Applies(f, ops, j, p)
  {
    if n == 0 then -1
    else if Applies(f, ops, n - 1, p) then n - 1
    else Latest(f, ops, n - 1, p)
  }

  /** The standing decisions among the first `n`, newest first. */
  function Standing(ops: seq<Op>, n: nat): seq<Rule>
    requires n <= |ops|
  {
    if n == 0 then []
    else
      (if Stands(ops, n - 1) then [Rule(Target(ops[n - 1]).value, ops[n - 1].accept)] else [])
      + Standing(ops, n - 1)
  }

  function LastSupport(ops: seq<Op>): Support
  {
    if ops == [] then Fails
    else if ops[|ops| - 1].Flush? then ops[|ops| - 1].support
    else LastSupport(ops[..|ops| - 1])
  }

  function Base(f: Family, exempt: seq<nat>, ops: seq<Op>): seq<Rule> {
    BaseRules(f, exempt, LastSupport(ops))
  }

  /** Whether the last of Flush, BlockAll and AllowAll was not AllowAll. */
  predicate Dropping(ops: seq<Op>) {
    ops != [] &&
    match ops[|ops| - 1]
    case Flush(_) => true
    case BlockAll => true
    case AllowAll => false
    case _ => Dropping(ops[..|ops| - 1])
  }

  function Tail(ops: seq<Op>): seq<Rule> {
    if Dropping(ops) then [DROP_ALL] else []
  }

  // ------------------------------------------------------------------
  // Commands on a chain of the right shape
  // ------------------------------------------------------------------

  function Without(rules: seq<Rule>, m: Match): seq<Rule> {
    if rules == [] then []
    else if rules[0].match_ == m then Without(rules[1..], m)
    else [rules[0]] + Without(rules[1..], m)
  }

  predicate Absent(rules: seq<Rule>, m: Match) {
    forall i :: 0 <= i < |rules| ==> rules[i].match_ != m
  }

  predicate Distinct(rules: seq<Rule>) {
    forall i, j :: 0 <= i < j < |rules| ==> rules[i].match_ != rules[j].match_
  }

  lemma {:induction false} DeleteOneBehind(a: seq<Rule>, b: seq<Rule>, r: Rule)
    requires r !in a
    ensures DeleteOne(a + b, r) == a + DeleteOne(b, r)
  {
    if a == [] {
      assert a + b == b;
    } else {
      assert (a + b)[1..] == a[1..] + b;
      DeleteOneBehind(a[1..], b, r);
    }
  }

  lemma {:induction false} DeleteOneBefore(a: seq<Rule>, b: seq<Rule>, r: Rule)
    requires r !in b
    ensures DeleteOne(a + b, r) == DeleteOne(a, r) + b
  {
    if a == [] {
      assert a + b == b;
      DeleteNothing(b, r);
    } else {
      assert (a + b)[1..] == a[1..] + b;
      DeleteOneBefore(a[1..], b, r);
    }
  }

  lemma {:induction false} DeleteAllSplits(a: seq<Rule>, b: seq<Rule>, r: Rule)
    ensures DeleteAll(a + b, r) == DeleteAll(a, r) + DeleteAll(b, r)
  {
    if a == [] {
      assert a + b == b;
    } else {
      assert (a + b)[1..] == a[1..] + b;
      DeleteAllSplits(a[1..], b, r);
    }
  }

  lemma {:induction false} WithoutAbsent(rules: seq<Rule>, m: Match)
    requires Absent(rules, m)
    ensures Without(rules, m) == rules
  {
    if rules != [] {
      WithoutAbsent(rules[1..], m);
    }
  }

  /** One -D for either action takes out all of a source's rules, there being at most one. */
  lemma {:induction false} DeleteEither(rules: seq<Rule>, m: Match)
    requires Distinct(rules)
    ensures DeleteOne(DeleteOne(rules, Rule(m, true)), Rule(m, false)) == Without(rules, m)
  {
    if rules != [] {
      if rules[0].match_ == m {
        WithoutAbsent(rules[1..], m);
        DeleteNothing(rules[1..], Rule(m, false));
        if !rules[0].accept {
          DeleteNothing(rules, Rule(m, true));
        }
      } else {
        DeleteEither(rules[1..], m);
      }
    }
  }

  lemma {:induction false} DeleteAllEither(rules: seq<Rule>, m: Match)
    ensures DeleteAll(DeleteAll(rules, Rule(m, true)), Rule(m, false)) == Without(rules, m)
  {
    if rules != [] {
      DeleteAllEither(rules[1..], m);
    }
  }

  lemma ClearIPShape(base: seq<Rule>, user: seq<Rule>, tail: seq<Rule>, src: Source)
    requires src.bits > 0 && Absent(base, From(src)) && Absent(tail, From(src)) && Distinct(user)
    ensures ClearIP(base + user + tail, src) == base + Without(user, From(src)) + tail
  {
    hide DeleteOne, Without, Distinct;
    var yes, no := Rule(From(src), true), Rule(From(src), false);
    DeleteOneBefore(base + user, tail, yes);
    DeleteOneBehind(base, user, yes);
    var once := DeleteOne(user, yes);
    DeleteOneBefore(base + once, tail, no);
    DeleteOneBehind(base, once, no);
    DeleteEither(user, From(src));
  }

  lemma ClearPortShape(base: seq<Rule>, user: seq<Rule>, tail: seq<Rule>, src: Source, port: nat)
    requires Absent(base, FromToPort(src, port)) && Absent(tail, FromToPort(src, port))
    ensures ClearPort(base + user + tail, src, port) == base + Without(user, FromToPort(src, port)) + tail
  {
    hide DeleteAll, Without;
    var m := FromToPort(src, port);
    var yes, no := Rule(m, true), Rule(m, false);
    DeleteAllSplits(base + user, tail, yes);
    DeleteAllSplits(base, user, yes);
    DeleteNothing(base, yes);
    DeleteNothing(tail, yes);
    var once := DeleteAll(user, yes);
    DeleteAllSplits(base + once, tail, no);
    DeleteAllSplits(base, once, no);
    DeleteNothing(base, no);
    DeleteNothing(tail, no);
    DeleteAllEither(user, m);
  }

  lemma InsertShape(f: Family, exempt: seq<nat>, skipped: bool, base: seq<Rule>, rest: seq<Rule>, tail: seq<Rule>,
                    r: Rule)
    requires |base| == BaseRuleCount(f, exempt, skipped)
    ensures InsertBehindBase(f, exempt, base + rest + tail, skipped, r) == Some(base + ([r] + rest) + tail)
  {
    hide BaseRuleCount;
    var chain := base + rest + tail;
    assert chain[..|base|] == base;
    assert chain[|base|..] == rest + tail;
    assert base + [r] + (rest + tail) == base + ([r] + rest) + tail;
  }

  lemma OpenShape(base: seq<Rule>, user: seq<Rule>, tail: seq<Rule>)
    requires Absent(base, Any) && Absent(user, Any) && (tail == [] || tail == [DROP_ALL])
    ensures DeleteAll(base + user + tail, DROP_ALL) == base + user
  {
    DeleteAllSplits(base + user, tail, DROP_ALL);
    DeleteAllSplits(base, user, DROP_ALL);
    DeleteNothing(base, DROP_ALL);
    DeleteNothing(user, DROP_ALL);
    assert DeleteAll(tail, DROP_ALL) == [];
    assert base + user + [] == base + user;
  }

  // ------------------------------------------------------------------
  // Base rules are never user rules
  // ------------------------------------------------------------------

  predicate UserMatch(f: Family, m: Match) {
    m == Any || m.FromToPort? || (m.From? && Ordinary(f, m.src))
  }

  lemma {:induction false} ExemptAreBase(f: Family, ports: seq<nat>, m: Match)
    requires UserMatch(f, m)
    ensures Absent(ExemptRules(ports), m)
    ensures forall i :: 0 <= i < |ExemptRules(ports)| ==> ExemptRules(ports)[i].accept
    decreases |ports|
  {
    if ports != [] {
      ExemptStep(ports);
      ExemptAreBase(f, if |ports| <= CHUNK then ports[|ports|..] else ports[CHUNK..], m);
    }
  }

  lemma BaseIsApart(f: Family, exempt: seq<nat>, support: Support, m: Match)
    requires UserMatch(f, m)
    ensures Absent(BaseRules(f, exempt, support), m)
    ensures forall i :: 0 <= i < |BaseRules(f, exempt, support)| ==> BaseRules(f, exempt, support)[i].accept
  {
    hide ExemptRules, LocalSources, AcceptFrom;
    ExemptAreBase(f, exempt, m);
    LocalsAreBase(f, m);
  }

  lemma LocalsAreBase(f: Family, m: Match)
    requires UserMatch(f, m)
    ensures Absent(AcceptFrom(LocalSources(f)), m)
    ensures forall i :: 0 <= i < |AcceptFrom(LocalSources(f))| ==> AcceptFrom(LocalSources(f))[i].accept
  {
    hide LocalSources;
  }

  // ------------------------------------------------------------------
  // Standing decisions, one operation later
  // ------------------------------------------------------------------

  lemma StandsLater(ops: seq<Op>, op: Op, i: nat)
    requires i < |ops|
    ensures Stands(ops + [op], i) <==> Stands(ops, i) && !op.Flush? && Target(op) != Target(ops[i])
  {
    var later := ops + [op];
    assert forall j :: 0 <= j < |ops| ==> later[j] == ops[j];
    assert later[|ops|] == op;
  }

  lemma {:induction false} StandingLater(ops: seq<Op>, op: Op, n: nat)
    requires n <= |ops|
    ensures Standing(ops + [op], n) ==
            if op.Flush? then []
            else if Target(op).Some? then Without(Standing(ops, n), Target(op).value)
            else Standing(ops, n)
  {
    hide Stands, Standing;
    StandingStep(ops, n);
    StandingStep(ops + [op], n);
    if n > 0 {
      StandingLater(ops, op, n - 1);
      StandsLater(ops, op, n - 1);
      StandingIsDecision(ops, n - 1);
      assert (ops + [op])[n - 1] == ops[n - 1];
    }
  }

  lemma StandingStep(ops: seq<Op>, n: nat)
    requires n <= |ops|
    ensures Standing(ops, n) ==
            if n == 0 then []
            else if Stands(ops, n - 1) then
              [Rule(Target(ops[n - 1]).value, ops[n - 1].accept)] + Standing(ops, n - 1)
            else Standing(ops, n - 1)
  {
    hide Stands;
  }

  lemma StandingIsDecision(ops: seq<Op>, i: nat)
    requires i < |ops|
    ensures Stands(ops, i) ==> Decision(ops[i])
  {
  }

  lemma {:induction false} StandingAbsent(ops: seq<Op>, n: nat, m: Match)
    requires n <= |ops|
    requires forall k :: 0 <= k < n && Stands(ops, k) ==> Target(ops[k]) != Some(m)
    ensures Absent(Standing(ops, n), m)
  {
    if n > 0 {
      StandingAbsent(ops, n - 1, m);
    }
  }

  lemma {:induction false} StandingDistinct(ops: seq<Op>, n: nat)
    requires n <= |ops|
    ensures Distinct(Standing(ops, n))
  {
    if n > 0 {
      StandingDistinct(ops, n - 1);
      if Stands(ops, n - 1) {
        var m := Target(ops[n - 1]).value;
        StandingAbsent(ops, n - 1, m);
      }
    }
  }

  // ------------------------------------------------------------------
  // Runs
  // ------------------------------------------------------------------

  /** The chain is always base rules, then the standing decisions, newest first, then at
      most one DROP; and the position computed for the next rule is the one behind the base. */
  lemma {:induction false} ChainShape(f: Family, exempt: seq<nat>, ops: seq<Op>)
    requires Proper(f, ops)
    ensures After(f, exempt, ops).chain == Base(f, exempt, ops) + Standing(ops, |ops|) + Tail(ops)
    ensures |Base(f, exempt, ops)| == BaseRuleCount(f, exempt, After(f, exempt, ops).skipped)
  {
    hide Step, Standing, BaseRules, BaseRuleCount, Covered;
    var before, op := ops[..|ops| - 1], ops[|ops| - 1];
    assert before + [op] == ops;
    if op.Flush? {
      AfterFlush(f, exempt, before, op);
    } else {
      assert Proper(f, before);
      ChainShape(f, exempt, before);
      match op {
        case Decide(_, _) => AfterDecision(f, exempt, before, op);
        case Remove(_) => AfterRemoval(f, exempt, before, op);
        case DecidePort(_, _, _) => AfterDecision(f, exempt, before, op);
        case RemovePort(_, _) => AfterRemoval(f, exempt, before, op);
        case BlockAll => AfterSwitch(f, exempt, before, op);
        case AllowAll => AfterSwitch(f, exempt, before, op);
      }
    }
  }

  lemma StandingNext(ops: seq<Op>, op: Op)
    ensures var rest := if op.Flush? then []
                        else if Target(op).Some? then Without(Standing(ops, |ops|), Target(op).value)
                        else Standing(ops, |ops|);
            Standing(ops + [op], |ops| + 1)
            == if Decision(op) then [Rule(Target(op).value, op.accept)] + rest else rest
  {
    hide Without;
    StandingLater(ops, op, |ops|);
    assert (ops + [op])[|ops|] == op;
    assert [] + Standing(ops + [op], |ops|) == Standing(ops + [op], |ops|);
  }

  lemma AfterFlush(f: Family, exempt: seq<nat>, before: seq<Op>, op: Op)
    requires op.Flush? && Covered(f, op)
    ensures var ops := before + [op];
            && After(f, exempt, ops).chain == Base(f, exempt, ops) + Standing(ops, |ops|) + Tail(ops)
            && |Base(f, exempt, ops)| == BaseRuleCount(f, exempt, After(f, exempt, ops).skipped)
  {
    hide Standing, BaseRules, BaseRuleCount;
    var ops := before + [op];
    assert ops[..|ops| - 1] == before;
    StandingNext(before, op);
    BaseRuleCountIsExact(f, exempt, op.support);
    assert Base(f, exempt, ops) + [] == Base(f, exempt, ops);
  }

  ghost predicate Shaped(f: Family, exempt: seq<nat>, t: Table, base: seq<Rule>, user: seq<Rule>, tail: seq<Rule>) {
    t.chain == base + user + tail && |base| == BaseRuleCount(f, exempt, t.skipped)
  }

  lemma AfterDecision(f: Family, exempt: seq<nat>, before: seq<Op>, op: Op)
    requires Decision(op) && Covered(f, op)
    requires Shaped(f, exempt, After(f, exempt, before), Base(f, exempt, before), Standing(before, |before|),
                    Tail(before))
    ensures var ops := before + [op];
            Shaped(f, exempt, After(f, exempt, ops), Base(f, exempt, ops), Standing(ops, |ops|), Tail(ops))
  {
    hide Standing, Without, BaseRules, BaseRuleCount, ClearIP, ClearPort, InsertBehindBase;
    var ops, t := before + [op], After(f, exempt, before);
    assert ops[..|ops| - 1] == before;
    StandingNext(before, op);
    ClearShape(f, exempt, before, op);
    var m := Target(op).value;
    InsertShape(f, exempt, t.skipped, Base(f, exempt, before), Without(Standing(before, |before|), m), Tail(before),
                Rule(m, op.accept));
  }

  lemma AfterRemoval(f: Family, exempt: seq<nat>, before: seq<Op>, op: Op)
    requires (op.Remove? || op.RemovePort?) && Covered(f, op)
    requires Shaped(f, exempt, After(f, exempt, before), Base(f, exempt, before), Standing(before, |before|),
                    Tail(before))
    ensures var ops := before + [op];
            Shaped(f, exempt, After(f, exempt, ops), Base(f, exempt, ops), Standing(ops, |ops|), Tail(ops))
  {
    hide Standing, Without, BaseRules, BaseRuleCount, ClearIP, ClearPort;
    var ops := before + [op];
    assert ops[..|ops| - 1] == before;
    StandingNext(before, op);
    ClearShape(f, exempt, before, op);
  }

  /** What either kind of removal leaves of a chain of the right shape. */
  lemma ClearShape(f: Family, exempt: seq<nat>, before: seq<Op>, op: Op)
    requires Target(op).Some? && Covered(f, op)
    ensures var chain := Base(f, exempt, before) + Standing(before, |before|) + Tail(before);
            var left := Base(f, exempt, before) + Without(Standing(before, |before|), Target(op).value) + Tail(before);
            if op.Decide? || op.Remove? then ClearIP(chain, op.src) == left
            else ClearPort(chain, op.src, op.port) == left
  {
    hide Standing, Without, BaseRules, ClearIP, ClearPort, Distinct;
    var m := Target(op).value;
    BaseIsApart(f, exempt, LastSupport(before), m);
    StandingDistinct(before, |before|);
    if op.Decide? || op.Remove? {
      ClearIPShape(Base(f, exempt, before), Standing(before, |before|), Tail(before), op.src);
    } else {
      ClearPortShape(Base(f, exempt, before), Standing(before, |before|), Tail(before), op.src, op.port);
    }
  }

  lemma AfterSwitch(f: Family, exempt: seq<nat>, before: seq<Op>, op: Op)
    requires op.BlockAll? || op.AllowAll?
    requires Shaped(f, exempt, After(f, exempt, before), Base(f, exempt, before), Standing(before, |before|),
                    Tail(before))
    ensures var ops := before + [op];
            Shaped(f, exempt, After(f, exempt, ops), Base(f, exempt, ops), Standing(ops, |ops|), Tail(ops))
  {
    hide Standing, BaseRules, BaseRuleCount, DeleteAll;
    var ops := before + [op];
    assert ops[..|ops| - 1] == before;
    StandingNext(before, op);
    BaseIsApart(f, exempt, LastSupport(before), Any);
    StandingAbsent(before, |before|, Any);
    OpenShape(Base(f, exempt, before), Standing(before, |before|), Tail(before));
    assert Base(f, exempt, ops) + Standing(ops, |ops|) + [] == Base(f, exempt, ops) + Standing(ops, |ops|);
  }

  // ------------------------------------------------------------------
  // Verdicts
  // ------------------------------------------------------------------

  lemma {:induction false} AcceptingVerdict(f: Family, rules: seq<Rule>, p: Packet)
    requires forall i :: 0 <= i < |rules| ==> rules[i].accept
    ensures Verdict(f, rules, p) in {None, Some(true)}
  {
    hide Matches;
    if rules != [] {
      AcceptingVerdict(f, rules[1..], p);
    }
  }

  lemma {:induction false} StandingVerdict(f: Family, ops: seq<Op>, n: nat, p: Packet)
    requires n <= |ops|
    ensures var i := Latest(f, ops, n, p);
            Verdict(f, Standing(ops, n), p) == if i == -1 then None else Some(ops[i].accept)
  {
    hide Matches, Stands, Standing, Applies, Verdict;
    if n == 0 {
      NoneStand(f, ops, p);
    } else {
      StandingVerdict(f, ops, n - 1, p);
      StandingVerdictStep(f, ops, n, p);
    }
  }

  lemma NoneStand(f: Family, ops: seq<Op>, p: Packet)
    ensures Verdict(f, Standing(ops, 0), p) == None
  {
  }

  lemma StandingVerdictStep(f: Family, ops: seq<Op>, n: nat, p: Packet)
    requires 0 < n <= |ops|
    ensures Applies(f, ops, n - 1, p) ==> Decision(ops[n - 1])
    ensures Verdict(f, Standing(ops, n), p) ==
            if Applies(f, ops, n - 1, p) then Some(ops[n - 1].accept) else Verdict(f, Standing(ops, n - 1), p)
  {
    hide Matches, Stands, Standing;
    StandingStep(ops, n);
    StandingIsDecision(ops, n - 1);
    if Stands(ops, n - 1) {
      assert Standing(ops, n)[1..] == Standing(ops, n - 1);
    }
  }

  /** Main result: after any covered run, a packet is accepted when a base rule accepts it;
      otherwise the latest standing decision that matches it decides; otherwise the tail. */
  lemma LatestDecisionWins(f: Family, exempt: seq<nat>, ops: seq<Op>, p: Packet)
    requires Proper(f, ops)
    ensures var verdict := Verdict(f, After(f, exempt, ops).chain, p);
            var i := Latest(f, ops, |ops|, p);
            verdict ==
            if Verdict(f, Base(f, exempt, ops), p).Some? then Some(true)
            else if i >= 0 then Some(ops[i].accept)
            else if Dropping(ops) then Some(false)
            else None
  {
    hide After, Base, Standing, Applies, Proper, Dropping;
    ChainShape(f, exempt, ops);
    var base, user, tail := Base(f, exempt, ops), Standing(ops, |ops|), Tail(ops);
    VerdictSplits(f, base + user, tail, p);
    VerdictSplits(f, base, user, p);
    BaseAccepts(f, exempt, ops, p);
    StandingVerdict(f, ops, |ops|, p);
    TailVerdict(f, ops, p);
  }

  lemma BaseAccepts(f: Family, exempt: seq<nat>, ops: seq<Op>, p: Packet)
    ensures Verdict(f, Base(f, exempt, ops), p) in {None, Some(true)}
  {
    hide BaseRules;
    BaseIsApart(f, exempt, LastSupport(ops), Any);
    AcceptingVerdict(f, Base(f, exempt, ops), p);
  }

  lemma TailVerdict(f: Family, ops: seq<Op>, p: Packet)
    ensures Verdict(f, Tail(ops), p) == if Dropping(ops) then Some(false) else None
  {
    hide Dropping;
  }

  // ------------------------------------------------------------------
  // Exactly which sources keep the shape
  // ------------------------------------------------------------------

  /** The chain is base rules, standing decisions and tail. */
  ghost predicate InShape(f: Family, exempt: seq<nat>, ops: seq<Op>) {
    After(f, exempt, ops).chain == Base(f, exempt, ops) + Standing(ops, |ops|) + Tail(ops)
  }

  lemma {:induction false} DeleteOneShortens(chain: seq<Rule>, r: Rule)
    requires r in chain
    ensures |DeleteOne(chain, r)| == |chain| - 1
    ensures forall x :: x in DeleteOne(chain, r) ==> x in chain
  {
    if chain[0] != r {
      DeleteOneShortens(chain[1..], r);
    }
  }

  lemma LocalIsBase(f: Family, exempt: seq<nat>, support: Support, src: Source)
    requires src in LocalSources(f)
    ensures Rule(From(src), true) in BaseRules(f, exempt, support) && src.bits > 0
  {
    hide ExemptRules, EstablishedRules, LocalSources;
    var i :| 0 <= i < |LocalSources(f)| && LocalSources(f)[i] == src;
    var front := [Rule(Loopback, true)] + EstablishedRules(support);
    assert BaseRules(f, exempt, support)[|front| + i] == AcceptFrom(LocalSources(f))[i];
    LocalsHaveBits(f, i);
  }

  lemma LocalsHaveBits(f: Family, i: nat)
    requires i < |LocalSources(f)|
    ensures LocalSources(f)[i].bits > 0
  {
  }

  /** Sources that no covered operation decides have no standing decision. */
  lemma NeverStanding(f: Family, ops: seq<Op>, src: Source)
    requires Proper(f, ops) && !Ordinary(f, src)
    ensures Absent(Standing(ops, |ops|), From(src))
  {
    hide Stands, Standing, Absent, Ordinary;
    forall k | 0 <= k < |ops| && Stands(ops, k) ensures Target(ops[k]) != Some(From(src)) {
      assert Covered(f, ops[k]);
    }
    StandingAbsent(ops, |ops|, From(src));
  }

  /** Taking back a built-in local prefix takes out its base rule. */
  lemma LocalCleared(f: Family, exempt: seq<nat>, ops: seq<Op>, src: Source)
    requires Proper(f, ops) && src in LocalSources(f)
    ensures ClearIP(After(f, exempt, ops).chain, src)
            == DeleteOne(Base(f, exempt, ops), Rule(From(src), true)) + Standing(ops, |ops|) + Tail(ops)
  {
    hide After, Proper, BaseRules, LocalSources, Standing, DeleteOne, BaseRuleCount;
    var base, rest := Base(f, exempt, ops), Standing(ops, |ops|) + Tail(ops);
    var yes, no := Rule(From(src), true), Rule(From(src), false);
    ChainShape(f, exempt, ops);
    assert base + Standing(ops, |ops|) + Tail(ops) == base + rest;
    LocalIsBase(f, exempt, LastSupport(ops), src);
    BaseIsApart(f, exempt, LastSupport(ops), Any);
    NeverStanding(f, ops, src);
    assert yes !in rest && no !in rest;
    DeleteOneBefore(base, rest, yes);
    DeleteOneShortens(base, yes);
    DeleteNothing(DeleteOne(base, yes) + rest, no);
    assert DeleteOne(base, yes) + rest == DeleteOne(base, yes) + Standing(ops, |ops|) + Tail(ops);
  }

  lemma AfterLast(f: Family, exempt: seq<nat>, ops: seq<Op>, op: Op)
    ensures After(f, exempt, ops + [op]) == Step(f, exempt, After(f, exempt, ops), op)
    ensures !op.Flush? ==> Base(f, exempt, ops + [op]) == Base(f, exempt, ops)
    ensures !op.Flush? && !op.BlockAll? && !op.AllowAll? ==> Tail(ops + [op]) == Tail(ops)
  {
    hide Step, BaseRules;
    assert (ops + [op])[..|ops|] == ops;
  }

  /** An insertion adds at most one rule. */
  lemma InsertLength(f: Family, exempt: seq<nat>, chain: seq<Rule>, skipped: bool, r: Rule)
    ensures |OrElse(InsertBehindBase(f, exempt, chain, skipped, r), chain)| <= |chain| + 1
  {
    hide BaseRuleCount;
  }

  /** A built-in local prefix never keeps the shape: one rule too few is left. */
  lemma LocalBreaksShape(f: Family, exempt: seq<nat>, ops: seq<Op>, op: Op)
    requires Proper(f, ops) && (op.Decide? || op.Remove?) && op.src in LocalSources(f)
    ensures !InShape(f, exempt, ops + [op])
  {
    hide After, LocalSources, Standing, Base, Dropping, ClearIP, InsertBehindBase, DeleteOne, BaseRuleCount, Without;
    hide Proper, Tail;
    var cleared := ClearIP(After(f, exempt, ops).chain, op.src);
    LocalCleared(f, exempt, ops, op.src);
    LocalIsBase(f, exempt, LastSupport(ops), op.src);
    BaseIs(f, exempt, ops);
    DeleteOneShortens(Base(f, exempt, ops), Rule(From(op.src), true));
    AfterLast(f, exempt, ops, op);
    StandingNext(ops, op);
    LocalStandsOnce(f, ops, op.src);
    if op.Decide? {
      InsertLength(f, exempt, cleared, After(f, exempt, ops).skipped, Rule(SourceMatch(op.src), op.accept));
    }
  }

  lemma LocalStandsOnce(f: Family, ops: seq<Op>, src: Source)
    requires Proper(f, ops) && src in LocalSources(f)
    ensures Without(Standing(ops, |ops|), From(src)) == Standing(ops, |ops|)
  {
    hide Proper, Standing, LocalSources, Without;
    NeverStanding(f, ops, src);
    WithoutAbsent(Standing(ops, |ops|), From(src));
  }

  lemma BaseIs(f: Family, exempt: seq<nat>, ops: seq<Op>)
    ensures Base(f, exempt, ops) == BaseRules(f, exempt, LastSupport(ops))
  {
  }

  /** What taking back a built-in local prefix does to the next decision, in every run: its rule
      goes behind the first rule that follows the base, be that a decision or the final DROP,
      or nowhere when nothing follows. */
  lemma LocalPrefixMisplaces(f: Family, exempt: seq<nat>, ops: seq<Op>, gone: Source, src: Source, accept: bool)
    requires Proper(f, ops) && gone in LocalSources(f) && Ordinary(f, src)
    ensures var less := DeleteOne(Base(f, exempt, ops), Rule(From(gone), true));
            var rest := Without(Standing(ops, |ops|), From(src)) + Tail(ops);
            After(f, exempt, ops + [Remove(gone)] + [Decide(src, accept)]).chain
            == if rest == [] then less else less + rest[..1] + [Rule(From(src), accept)] + rest[1..]
  {
    hide After, Proper, LocalSources, Standing, Base, Dropping, DeleteOne, BaseRuleCount, Without;
    var base, user, tail := Base(f, exempt, ops), Standing(ops, |ops|), Tail(ops);
    var less := DeleteOne(base, Rule(From(gone), true));
    LocalCleared(f, exempt, ops, gone);
    LocalIsBase(f, exempt, LastSupport(ops), gone);
    BaseIs(f, exempt, ops);
    DeleteOneShortens(base, Rule(From(gone), true));
    AfterLast(f, exempt, ops, Remove(gone));
    AfterLast(f, exempt, ops + [Remove(gone)], Decide(src, accept));
    ChainShape(f, exempt, ops);
    BaseIsApart(f, exempt, LastSupport(ops), From(src));
    StillAbsent(base, less, From(src));
    StandingDistinct(ops, |ops|);
    ClearIPShape(less, user, tail, src);
    InsertLater(f, exempt, After(f, exempt, ops).skipped, less, Without(user, From(src)), tail,
                Rule(From(src), accept));
  }

  lemma StillAbsent(rules: seq<Rule>, fewer: seq<Rule>, m: Match)
    requires Absent(rules, m) && forall x :: x in fewer ==> x in rules
    ensures Absent(fewer, m)
  {
    forall i | 0 <= i < |fewer| ensures fewer[i].match_ != m {
      assert fewer[i] in fewer;
    }
  }

  lemma InsertLater(f: Family, exempt: seq<nat>, skipped: bool, less: seq<Rule>, user: seq<Rule>, tail: seq<Rule>,
                    r: Rule)
    requires |less| + 1 == BaseRuleCount(f, exempt, skipped)
    ensures var chain, rest := less + user + tail, user + tail;
            OrElse(InsertBehindBase(f, exempt, chain, skipped, r), chain)
            == if rest == [] then less else less + rest[..1] + [r] + rest[1..]
  {
    hide BaseRuleCount;
    var chain, rest := less + user + tail, user + tail;
    assert chain == less + rest;
    if rest == [] {
      assert less + rest == less;
    } else {
      assert chain[..|less| + 1] == less + rest[..1];
      assert chain[|less| + 1..] == rest[1..];
    }
  }

  // ------------------------------------------------------------------
  // The all-addresses prefix
  // ------------------------------------------------------------------

  /** Clearing the all-addresses prefix takes out the final DROP: the kernel stores both as rules
      without a source. */
  lemma EveryoneCleared(base: seq<Rule>, user: seq<Rule>, tail: seq<Rule>, src: Source)
    requires Absent(base, Any) && Absent(user, Any) && (tail == [] || tail == [DROP_ALL]) && src.bits == 0
    ensures ClearIP(base + user + tail, src) == base + user
  {
    var front, yes, no := base + user, Rule(Any, true), Rule(Any, false);
    assert front + [] == front;
    if tail == [] {
      DeleteNothing(front, yes);
      DeleteNothing(front, no);
    } else {
      DeleteOneBehind(front, tail, yes);
      DeleteOneBehind(front, tail, no);
      assert DeleteOne(tail, yes) == [DROP_ALL] + DeleteOne([], yes) == tail;
    }
  }

  lemma EveryoneClearedAfter(f: Family, exempt: seq<nat>, ops: seq<Op>, src: Source)
    requires Proper(f, ops) && src.bits == 0
    ensures ClearIP(After(f, exempt, ops).chain, src) == Base(f, exempt, ops) + Standing(ops, |ops|)
  {
    hide After, Proper, BaseRules, Standing, ClearIP, BaseRuleCount, Dropping;
    ChainShape(f, exempt, ops);
    BaseIsApart(f, exempt, LastSupport(ops), Any);
    StandingAbsent(ops, |ops|, Any);
    EveryoneCleared(Base(f, exempt, ops), Standing(ops, |ops|), Tail(ops), src);
  }

  /** Main result: taking back the all-addresses prefix leaves base rules and standing decisions
      without a tail, so it keeps the shape if and only if there was no final DROP. */
  lemma AllAddressesRemoved(f: Family, exempt: seq<nat>, ops: seq<Op>, src: Source)
    requires Proper(f, ops) && src.bits == 0
    ensures After(f, exempt, ops + [Remove(src)]).chain == Base(f, exempt, ops) + Standing(ops, |ops|)
    ensures InShape(f, exempt, ops + [Remove(src)]) <==> !Dropping(ops)
  {
    hide After, Proper, Standing, Base, ClearIP, Without;
    EveryoneClearedAfter(f, exempt, ops, src);
    AfterLast(f, exempt, ops, Remove(src));
    StandingNext(ops, Remove(src));
    NeverStanding(f, ops, src);
    WithoutAbsent(Standing(ops, |ops|), From(src));
    TailLength(ops);
  }

  lemma TailLength(ops: seq<Op>)
    ensures |Tail(ops)| == if Dropping(ops) then 1 else 0
  {
    hide Dropping;
  }

  /** Main result: a decision on the all-addresses prefix replaces the final DROP by a rule for
      everyone in front of the standing decisions: it decides every packet that no base rule
      accepts, and taking it back leaves the chain without a tail. */
  lemma AllAddressesDecided(f: Family, exempt: seq<nat>, ops: seq<Op>, src: Source, accept: bool, p: Packet)
    requires Proper(f, ops) && src.bits == 0
    ensures var chain := After(f, exempt, ops + [Decide(src, accept)]).chain;
            && chain == Base(f, exempt, ops) + ([Rule(Any, accept)] + Standing(ops, |ops|))
            && Verdict(f, chain, p) == if Verdict(f, Base(f, exempt, ops), p).Some? then Some(true) else Some(accept)
    ensures !InShape(f, exempt, ops + [Decide(src, accept)])
    ensures After(f, exempt, ops + [Decide(src, accept)] + [Remove(src)]).chain
            == Base(f, exempt, ops) + Standing(ops, |ops|)
  {
    hide After, Proper, Standing, Base, ClearIP, Without, BaseRuleCount, InsertBehindBase, Dropping;
    var base, user, r := Base(f, exempt, ops), Standing(ops, |ops|), Rule(Any, accept);
    EveryoneClearedAfter(f, exempt, ops, src);
    AfterLast(f, exempt, ops, Decide(src, accept));
    ChainShape(f, exempt, ops);
    assert base + user + [] == base + user;
    InsertShape(f, exempt, After(f, exempt, ops).skipped, base, user, [], r);
    assert base + ([r] + user) + [] == base + ([r] + user);
    VerdictSplits(f, base, [r] + user, p);
    BaseAccepts(f, exempt, ops, p);
    NotInShape(f, exempt, ops, src, accept);
    AfterLast(f, exempt, ops + [Decide(src, accept)], Remove(src));
    EveryoneDecidedCleared(f, exempt, ops, src, accept);
  }

  /** Main result: after any covered run, deciding on a source or taking a decision back keeps the
      shape if and only if the source is neither a built-in local prefix nor all addresses, or all
      addresses are taken back and there was no final DROP. */
  lemma ShapeExactlyWhen(f: Family, exempt: seq<nat>, ops: seq<Op>, op: Op)
    requires Proper(f, ops) && (op.Decide? || op.Remove?)
    ensures InShape(f, exempt, ops + [op])
            <==> Ordinary(f, op.src) || (op.Remove? && op.src.bits == 0 && !Dropping(ops))
  {
    hide InShape, LocalSources, Dropping;
    if op.src.bits == 0 {
      if op.Remove? {
        AllAddressesRemoved(f, exempt, ops, op.src);
      } else {
        AllAddressesDecided(f, exempt, ops, op.src, op.accept, Packet(0, false, false, false, None, None));
      }
    } else if op.src in LocalSources(f) {
      LocalBreaksShape(f, exempt, ops, op);
    } else {
      OrdinaryKeepsShape(f, exempt, ops, op);
    }
  }

  lemma OrdinaryKeepsShape(f: Family, exempt: seq<nat>, ops: seq<Op>, op: Op)
    requires Proper(f, ops) && (op.Decide? || op.Remove?) && Ordinary(f, op.src)
    ensures InShape(f, exempt, ops + [op])
  {
    hide After, LocalSources, Standing, Base, Dropping, BaseRuleCount, Ordinary;
    assert Proper(f, ops + [op]);
    ChainShape(f, exempt, ops + [op]);
  }

  lemma NotInShape(f: Family, exempt: seq<nat>, ops: seq<Op>, src: Source, accept: bool)
    requires Proper(f, ops) && src.bits == 0
    requires After(f, exempt, ops + [Decide(src, accept)]).chain
             == Base(f, exempt, ops) + ([Rule(Any, accept)] + Standing(ops, |ops|))
    ensures !InShape(f, exempt, ops + [Decide(src, accept)])
  {
    hide After, Proper, Standing, Base, Without, Dropping;
    var base, next := Base(f, exempt, ops), ops + [Decide(src, accept)];
    AfterLast(f, exempt, ops, Decide(src, accept));
    StandingNext(ops, Decide(src, accept));
    assert After(f, exempt, next).chain[|base|] == Rule(Any, accept);
    assert (base + Standing(next, |next|) + Tail(next))[|base|] == Rule(From(src), accept);
  }

  lemma EveryoneDecidedCleared(f: Family, exempt: seq<nat>, ops: seq<Op>, src: Source, accept: bool)
    requires Proper(f, ops) && src.bits == 0
    ensures ClearIP(Base(f, exempt, ops) + ([Rule(Any, accept)] + Standing(ops, |ops|)), src)
            == Base(f, exempt, ops) + Standing(ops, |ops|)
  {
    hide BaseRules, Standing, Proper;
    var base, user, r := Base(f, exempt, ops), Standing(ops, |ops|), Rule(Any, accept);
    var yes, no := Rule(Any, true), Rule(Any, false);
    BaseIsApart(f, exempt, LastSupport(ops), Any);
    StandingAbsent(ops, |ops|, Any);
    DeleteOneBehind(base, [r] + user, yes);
    DeleteOneBehind(base, [r] + user, no);
    assert ([r] + user)[1..] == user;
    DeleteNothing(user, yes);
    DeleteNothing(user, no);
    DeleteNothing(base + user, no);
    if accept {
      assert DeleteOne([r] + user, yes) == user;
    } else {
      assert DeleteOne([r] + user, yes) == [r] + DeleteOne(user, yes) == [r] + user;
      assert DeleteOne([r] + user, no) == user;
    }
  }
}
