/** A formula for the chain after every run of firewall operations (pkg/iptables/manager.go). */
module FirewallRuns {
  // Operations on built-in local prefixes and on the all-addresses prefix included (lines
  // 761-865 and 909-1183): base rules that are left, and the rules behind them.

  import opened Bytes
  import opened FirewallChain
  import opened FirewallHistory

  /** A run starts with a set-up, and every set-up succeeds. */
  predicate Started(ops: seq<Op>) {
    && ops != []
    && ops[0].Flush?
    && forall i :: 0 <= i < |ops| && ops[i].Flush? ==> ops[i].support != Fails
  }

  /** The built-in local prefixes decided on or taken back since the last set-up. */
  function Gone(f: Family, ops: seq<Op>): set<Source> {
    if ops == [] || ops[|ops| - 1].Flush? then {}
    else
      var before, op := Gone(f, ops[..|ops| - 1]), ops[|ops| - 1];
      if (op.Decide? || op.Remove?) && op.src in LocalSources(f) then before + {op.src} else before
  }

  /** The rules that are not those of the given sources. */
  function Left(rules: seq<Rule>, gone: set<Source>): seq<Rule> {
    if rules == [] then []
    else if rules[0].match_.From? && rules[0].match_.src in gone then Left(rules[1..], gone)
    else [rules[0]] + Left(rules[1..], gone)
  }

  function BaseLeft(f: Family, exempt: seq<nat>, ops: seq<Op>): seq<Rule> {
    Left(Base(f, exempt, ops), Gone(f, ops))
  }

  /** What the kernel matches for an operation's target. */
  function OpMatch(op: Op): Match
    requires Target(op).Some?
  {
    if op.Decide? || op.Remove? then SourceMatch(op.src) else Target(op).value
  }

  /** A rule behind the first `depth` ones, if there are so many. */
  function Placed(rest: seq<Rule>, depth: nat, r: Rule): seq<Rule> {
    if depth <= |rest| then rest[..depth] + [r] + rest[depth..] else rest
  }

  /** The rules behind the base: a decision replaces the one with its match and goes behind as
      many rules as base rules are missing. */
  function Rest(f: Family, ops: seq<Op>): seq<Rule> {
    if ops == [] then []
    else
      var before, op := Rest(f, ops[..|ops| - 1]), ops[|ops| - 1];
      match op
      case Flush(_) => [DROP_ALL]
      case BlockAll => DeleteAll(before, DROP_ALL) + [DROP_ALL]
      case AllowAll => DeleteAll(before, DROP_ALL)
      case _ =>
        var less := Without(before, OpMatch(op));
        if Decision(op) then Placed(less, |Gone(f, ops)|, Rule(OpMatch(op), op.accept)) else less
  }

  // ------------------------------------------------------------------
  // Base rules
  // ------------------------------------------------------------------

  lemma {:induction false} LeftSplits(a: seq<Rule>, b: seq<Rule>, gone: set<Source>)
    ensures Left(a + b, gone) == Left(a, gone) + Left(b, gone)
  {
    if a == [] {
      assert a + b == b;
    } else {
      assert (a + b)[1..] == a[1..] + b;
      LeftSplits(a[1..], b, gone);
    }
  }

  lemma {:induction false} LeftAbsent(rules: seq<Rule>, gone: set<Source>, src: Source)
    requires Absent(rules, From(src))
    ensures Left(rules, gone + {src}) == Left(rules, gone) && Absent(Left(rules, gone), From(src))
  {
    if rules != [] {
      LeftAbsent(rules[1..], gone, src);
    }
  }

  lemma {:induction false} LeftKeeps(rules: seq<Rule>, gone: set<Source>, m: Match)
    ensures Left(rules, {}) == rules
    ensures Absent(rules, m) ==> Absent(Left(rules, gone), m)
    ensures m.From? && m.src in gone ==> Absent(Left(rules, gone), m)
    ensures (forall i :: 0 <= i < |rules| ==> rules[i].accept) ==>
              forall i :: 0 <= i < |Left(rules, gone)| ==> Left(rules, gone)[i].accept
  {
    if rules != [] {
      LeftKeeps(rules[1..], gone, m);
    }
  }

  /** The rule of a built-in local prefix, once among the base rules. */
  lemma LocalSplits(f: Family, exempt: seq<nat>, support: Support, src: Source) returns (a: seq<Rule>, b: seq<Rule>)
    requires src in LocalSources(f)
    ensures BaseRules(f, exempt, support) == a + [Rule(From(src), true)] + b
    ensures Absent(a, From(src)) && Absent(b, From(src))
  {
    hide ExemptRules, LocalSources, AcceptFrom, Absent;
    var locals := LocalSources(f);
    var i :| 0 <= i < |locals| && locals[i] == src;
    var front, back := [Rule(Loopback, true)] + EstablishedRules(support), [Rule(Icmp, true)] + ExemptRules(exempt);
    var before, after := AcceptFrom(locals[..i]), AcceptFrom(locals[i + 1..]);
    a, b := front + before, after + back;
    LocalsDistinct(f);
    AcceptAround(locals, i);
    EdgesAbsent(exempt, support, src);
    AbsentConcat(front, before, From(src));
    AbsentConcat(after, back, From(src));
  }

  lemma AbsentConcat(a: seq<Rule>, b: seq<Rule>, m: Match)
    ensures Absent(a + b, m) <==> Absent(a, m) && Absent(b, m)
  {
    assert forall i :: 0 <= i < |a| ==> (a + b)[i] == a[i];
    assert forall i :: 0 <= i < |b| ==> (a + b)[|a| + i] == b[i];
  }

  lemma AcceptAround(sources: seq<Source>, i: nat)
    requires i < |sources| && forall j, k :: 0 <= j < k < |sources| ==> sources[j] != sources[k]
    ensures AcceptFrom(sources)
            == AcceptFrom(sources[..i]) + [Rule(From(sources[i]), true)] + AcceptFrom(sources[i + 1..])
    ensures Absent(AcceptFrom(sources[..i]), From(sources[i])) && Absent(AcceptFrom(sources[i + 1..]), From(sources[i]))
  {
  }

  lemma EdgesAbsent(exempt: seq<nat>, support: Support, src: Source)
    ensures Absent([Rule(Loopback, true)] + EstablishedRules(support), From(src))
    ensures Absent([Rule(Icmp, true)] + ExemptRules(exempt), From(src))
  {
    hide ExemptRules;
    ExemptAbsent(exempt, src);
  }

  lemma LocalsDistinct(f: Family)
    ensures forall i, j :: 0 <= i < j < |LocalSources(f)| ==> LocalSources(f)[i] != LocalSources(f)[j]
  {
  }

  lemma {:induction false} ExemptAbsent(ports: seq<nat>, src: Source)
    ensures Absent(ExemptRules(ports), From(src))
    decreases |ports|
  {
    if ports != [] {
      ExemptStep(ports);
      ExemptAbsent(if |ports| <= CHUNK then ports[|ports|..] else ports[CHUNK..], src);
    }
  }

  /** One more built-in prefix gone: its rule leaves the base. */
  lemma LeftOneLess(f: Family, exempt: seq<nat>, support: Support, gone: set<Source>, src: Source)
    requires src in LocalSources(f) && src !in gone
    ensures var base, yes := BaseRules(f, exempt, support), Rule(From(src), true);
            && yes in Left(base, gone)
            && Left(base, gone + {src}) == DeleteOne(Left(base, gone), yes)
            && |Left(base, gone)| == |Left(base, gone + {src})| + 1
            && Rule(From(src), false) !in Left(base, gone)
  {
    hide BaseRules, LocalSources, Absent;
    var yes, more := Rule(From(src), true), gone + {src};
    var a, b := LocalSplits(f, exempt, support, src);
    LeftSplits(a + [yes], b, gone);
    LeftSplits(a, [yes], gone);
    LeftSplits(a + [yes], b, more);
    LeftSplits(a, [yes], more);
    LeftAbsent(a, gone, src);
    LeftAbsent(b, gone, src);
    LeftOfOne(src, gone);
    NoRuleOf(Left(a, gone), From(src));
    NoRuleOf(Left(b, gone), From(src));
    DeleteOneBehind(Left(a, gone), [yes] + Left(b, gone), yes);
    assert Left(a, gone) + [yes] + Left(b, gone) == Left(a, gone) + ([yes] + Left(b, gone));
    assert ([yes] + Left(b, gone))[1..] == Left(b, gone);
    assert Left(a, gone) + [] + Left(b, gone) == Left(a, gone) + Left(b, gone);
  }

  lemma LeftOfOne(src: Source, gone: set<Source>)
    ensures Left([Rule(From(src), true)], gone) == if src in gone then [] else [Rule(From(src), true)]
  {
  }

  lemma NoRuleOf(rules: seq<Rule>, m: Match)
    ensures Absent(rules, m) ==> Rule(m, true) !in rules && Rule(m, false) !in rules
  {
  }

  // ------------------------------------------------------------------
  // The rules behind the base
  // ------------------------------------------------------------------

  predicate NoTwice(rules: seq<Rule>) {
    forall i, j :: 0 <= i < j < |rules| ==> rules[i] != rules[j]
  }

  /** One -D for either action takes out all rules with a match, when no rule is there twice. */
  lemma {:induction false} DeleteBoth(rules: seq<Rule>, m: Match)
    requires NoTwice(rules)
    ensures DeleteOne(DeleteOne(rules, Rule(m, true)), Rule(m, false)) == Without(rules, m)
  {
    if rules != [] {
      var first, rest := rules[0], rules[1..];
      assert first !in rest;
      DeleteBoth(rest, m);
      if first == Rule(m, true) {
        DeleteNothing(rest, first);
      } else if first == Rule(m, false) {
        var once := DeleteOne(rest, Rule(m, true));
        DeleteNothing(rest, first);
        DeleteOnePart(rest, Rule(m, true));
        DeleteNothing(once, first);
      }
    }
  }

  lemma {:induction false} DeleteOnePart(rules: seq<Rule>, r: Rule)
    ensures forall x :: x in DeleteOne(rules, r) ==> x in rules
  {
    if rules != [] {
      DeleteOnePart(rules[1..], r);
    }
  }

  lemma {:induction false} WithoutTidy(rules: seq<Rule>, m: Match)
    ensures NoTwice(rules) ==> NoTwice(Without(rules, m))
    ensures forall x :: x in Without(rules, m) <==> x in rules && x.match_ != m
  {
    if rules != [] {
      var rest := rules[1..];
      WithoutTidy(rest, m);
      assert NoTwice(rules) ==> NoTwice(rest) && rules[0] !in rest;
    }
  }

  lemma {:induction false} DeleteAllTidy(rules: seq<Rule>, r: Rule)
    ensures NoTwice(rules) ==> NoTwice(DeleteAll(rules, r))
    ensures forall x :: x in DeleteAll(rules, r) <==> x in rules && x != r
  {
    if rules != [] {
      var rest := rules[1..];
      DeleteAllTidy(rest, r);
      assert NoTwice(rules) ==> NoTwice(rest) && rules[0] !in rest;
    }
  }

  lemma PlacedTidy(rest: seq<Rule>, depth: nat, r: Rule)
    ensures NoTwice(rest) && r !in rest ==> NoTwice(Placed(rest, depth, r))
    ensures forall x :: x in Placed(rest, depth, r) ==> x in rest || x == r
  {
    if depth <= |rest| {
      var placed := Placed(rest, depth, r);
      assert rest == rest[..depth] + rest[depth..];
      assert forall i :: 0 <= i < |placed| ==>
          placed[i] == if i < depth then rest[i] else if i == depth then r else rest[i - 1];
    }
  }

  /** No rule is there twice, and none of a built-in prefix that nothing was decided on. */
  ghost predicate Tidy(f: Family, rest: seq<Rule>, gone: set<Source>) {
    && NoTwice(rest)
    && forall r :: r in rest && r.match_.From? && r.match_.src in LocalSources(f) ==> r.match_.src in gone
  }

  lemma RestStep(f: Family, ops: seq<Op>)
    requires ops != []
    ensures var before, op := Rest(f, ops[..|ops| - 1]), ops[|ops| - 1];
            Rest(f, ops)
            == match op
               case Flush(_) => [DROP_ALL]
               case BlockAll => DeleteAll(before, DROP_ALL) + [DROP_ALL]
               case AllowAll => DeleteAll(before, DROP_ALL)
               case _ =>
                 var less := Without(before, OpMatch(op));
                 if Decision(op) then Placed(less, |Gone(f, ops)|, Rule(OpMatch(op), op.accept)) else less
  {
    hide Gone, DeleteAll, Without, Placed;
  }

  lemma GoneStep(f: Family, ops: seq<Op>)
    requires ops != []
    ensures var before, op := Gone(f, ops[..|ops| - 1]), ops[|ops| - 1];
            Gone(f, ops)
            == if op.Flush? then {}
               else if (op.Decide? || op.Remove?) && op.src in LocalSources(f) then before + {op.src}
               else before
  {
    hide LocalSources;
  }

  lemma {:induction false} RestIsTidy(f: Family, ops: seq<Op>)
    ensures Tidy(f, Rest(f, ops), Gone(f, ops))
  {
    hide LocalSources, Rest, Gone, Without, DeleteAll, Placed, NoTwice;
    if ops == [] {
      assert Tidy(f, Rest(f, ops), Gone(f, ops)) by {
        EmptyIsTidy(f);
      }
    } else {
      var before, op := Rest(f, ops[..|ops| - 1]), ops[|ops| - 1];
      RestIsTidy(f, ops[..|ops| - 1]);
      RestStep(f, ops);
      GoneStep(f, ops);
      DeleteAllTidy(before, DROP_ALL);
      AppendTidy(DeleteAll(before, DROP_ALL), DROP_ALL);
      if Target(op).Some? {
        var m := OpMatch(op);
        WithoutTidy(before, m);
        if Decision(op) {
          PlacedTidy(Without(before, m), |Gone(f, ops)|, Rule(m, op.accept));
        }
      }
    }
  }

  lemma EmptyIsTidy(f: Family)
    ensures Tidy(f, Rest(f, []), Gone(f, []))
  {
  }

  lemma AppendTidy(rest: seq<Rule>, r: Rule)
    ensures NoTwice(rest) && r !in rest ==> NoTwice(rest + [r])
    ensures NoTwice([r])
  {
  }

  // ------------------------------------------------------------------
  // Commands on base and rest
  // ------------------------------------------------------------------

  /** Clearing a source takes out its rule of the base, if that is there, and its rules of the rest. */
  lemma ClearParts(f: Family, exempt: seq<nat>, support: Support, gone: set<Source>, rest: seq<Rule>, src: Source)
    requires Tidy(f, rest, gone)
    ensures var base := BaseRules(f, exempt, support);
            ClearIP(Left(base, gone) + rest, src)
            == Left(base, if src in LocalSources(f) then gone + {src} else gone) + Without(rest, SourceMatch(src))
  {
    hide BaseRules, LocalSources, Left, Without, DeleteOne;
    var base, m := BaseRules(f, exempt, support), SourceMatch(src);
    var left, yes, no := Left(base, gone), Rule(m, true), Rule(m, false);
    if src in LocalSources(f) && src !in gone {
      LocalIsBase(f, exempt, support, src);
      LeftOneLess(f, exempt, support, gone, src);
      DeleteOneBefore(left, rest, yes);
      DeleteOnePart(left, yes);
      DeleteNothing(DeleteOne(left, yes) + rest, no);
      WithoutAbsent(rest, m);
    } else {
      if src in LocalSources(f) {
        LocalIsBase(f, exempt, support, src);
        assert gone + {src} == gone;
      } else {
        BaseIsApart(f, exempt, support, m);
      }
      LeftKeeps(base, gone, m);
      NoRuleOf(left, m);
      DeleteOneBehind(left, rest, yes);
      DeleteOneBehind(left, DeleteOne(rest, yes), no);
      DeleteBoth(rest, m);
    }
  }

  lemma ClearPortParts(f: Family, exempt: seq<nat>, support: Support, gone: set<Source>, rest: seq<Rule>, src: Source,
                       port: nat)
    ensures var left := Left(BaseRules(f, exempt, support), gone);
            ClearPort(left + rest, src, port) == left + Without(rest, FromToPort(src, port))
  {
    hide BaseRules, Left, Without, ClearPort;
    var base, m := BaseRules(f, exempt, support), FromToPort(src, port);
    BaseIsApart(f, exempt, support, m);
    LeftKeeps(base, gone, m);
    ClearPortShape(Left(base, gone), rest, [], src, port);
    assert Left(base, gone) + rest + [] == Left(base, gone) + rest;
    assert Left(base, gone) + Without(rest, m) + [] == Left(base, gone) + Without(rest, m);
  }

  lemma OpenParts(f: Family, exempt: seq<nat>, support: Support, gone: set<Source>, rest: seq<Rule>)
    ensures var left := Left(BaseRules(f, exempt, support), gone);
            DeleteAll(left + rest, DROP_ALL) == left + DeleteAll(rest, DROP_ALL)
  {
    hide BaseRules, Left;
    var left := Left(BaseRules(f, exempt, support), gone);
    BaseIsApart(f, exempt, support, Any);
    LeftKeeps(BaseRules(f, exempt, support), gone, Any);
    DeleteAllSplits(left, rest, DROP_ALL);
    DeleteNothing(left, DROP_ALL);
  }

  /** A rule goes behind as many rules of the rest as base rules are missing. */
  lemma InsertParts(f: Family, exempt: seq<nat>, skipped: bool, left: seq<Rule>, rest: seq<Rule>, depth: nat, r: Rule)
    requires |left| + depth == BaseRuleCount(f, exempt, skipped)
    ensures OrElse(InsertBehindBase(f, exempt, left + rest, skipped, r), left + rest) == left + Placed(rest, depth, r)
  {
    hide BaseRuleCount;
    var chain := left + rest;
    if depth <= |rest| {
      assert chain[..|left| + depth] == left + rest[..depth];
      assert chain[|left| + depth..] == rest[depth..];
    }
  }

  lemma {:induction false} LeftSize(f: Family, exempt: seq<nat>, support: Support, gone: set<Source>)
    requires forall src :: src in gone ==> src in LocalSources(f)
    ensures |Left(BaseRules(f, exempt, support), gone)| + |gone| == |BaseRules(f, exempt, support)|
  {
    hide BaseRules, LocalSources;
    if gone == {} {
      LeftKeeps(BaseRules(f, exempt, support), {}, Any);
    } else {
      var src :| src in gone;
      LeftSize(f, exempt, support, gone - {src});
      LeftOneLess(f, exempt, support, gone - {src}, src);
      assert gone - {src} + {src} == gone;
    }
  }

  lemma {:induction false} GoneAreLocal(f: Family, ops: seq<Op>)
    ensures forall src :: src in Gone(f, ops) ==> src in LocalSources(f)
  {
    hide LocalSources;
    if ops != [] {
      GoneAreLocal(f, ops[..|ops| - 1]);
    }
  }

  // ------------------------------------------------------------------
  // Every run
  // ------------------------------------------------------------------

  /** Main result: after every run, whatever it decides on, the chain is the base rules but for those
      of the built-in prefixes touched since the last set-up, and the rest; and the position
      computed for the next rule is behind as many rules of the rest as base rules are missing. */
  lemma {:induction false} ChainFormula(f: Family, exempt: seq<nat>, ops: seq<Op>)
    requires Started(ops)
    ensures After(f, exempt, ops).chain == BaseLeft(f, exempt, ops) + Rest(f, ops)
    ensures |BaseLeft(f, exempt, ops)| + |Gone(f, ops)| == BaseRuleCount(f, exempt, After(f, exempt, ops).skipped)
  {
    hide Rest, Gone, Left, BaseRules, BaseRuleCount, LocalSources, Placed, Without, DeleteAll;
    hide ClearIP, ClearPort, InsertBehindBase;
    var before, op := ops[..|ops| - 1], ops[|ops| - 1];
    assert before + [op] == ops;
    RestStep(f, ops);
    GoneStep(f, ops);
    GoneAreLocal(f, ops);
    LeftSize(f, exempt, LastSupport(ops), Gone(f, ops));
    if op.Flush? {
      LeftKeeps(Base(f, exempt, ops), {}, Any);
      BaseRuleCountIsExact(f, exempt, op.support);
    } else {
      assert Started(before);
      ChainFormula(f, exempt, before);
      GoneAreLocal(f, before);
      LeftSize(f, exempt, LastSupport(before), Gone(f, before));
      RestIsTidy(f, before);
      RunStep(f, exempt, before, op);
    }
  }

  /** One operation on base and rest. */
  lemma RunStep(f: Family, exempt: seq<nat>, before: seq<Op>, op: Op)
    requires !op.Flush? && Tidy(f, Rest(f, before), Gone(f, before))
    requires After(f, exempt, before).chain == BaseLeft(f, exempt, before) + Rest(f, before)
    requires |BaseLeft(f, exempt, before)| + |Gone(f, before)|
             == BaseRuleCount(f, exempt, After(f, exempt, before).skipped)
    ensures After(f, exempt, before + [op]).chain == BaseLeft(f, exempt, before + [op]) + Rest(f, before + [op])
    ensures After(f, exempt, before + [op]).skipped == After(f, exempt, before).skipped
  {
    hide Rest, Gone, Left, BaseRules, BaseRuleCount, LocalSources, Placed, Without, DeleteAll;
    hide ClearIP, ClearPort, InsertBehindBase, Tidy;
    var ops, support, gone := before + [op], LastSupport(before), Gone(f, before);
    var left, rest, t := Left(BaseRules(f, exempt, support), gone), Rest(f, before), After(f, exempt, before);
    assert ops[..|ops| - 1] == before;
    RestStep(f, ops);
    GoneStep(f, ops);
    if op.BlockAll? || op.AllowAll? {
      OpenParts(f, exempt, support, gone, rest);
      assert left + DeleteAll(rest, DROP_ALL) + [DROP_ALL] == left + (DeleteAll(rest, DROP_ALL) + [DROP_ALL]);
    } else {
      var after, less := BaseLeft(f, exempt, ops), Without(rest, OpMatch(op));
      if op.Decide? || op.Remove? {
        ClearParts(f, exempt, support, gone, rest, op.src);
      } else {
        ClearPortParts(f, exempt, support, gone, rest, op.src, op.port);
      }
      if Decision(op) {
        GoneAreLocal(f, before);
        GoneAreLocal(f, ops);
        LeftSize(f, exempt, support, gone);
        LeftSize(f, exempt, support, Gone(f, ops));
        InsertParts(f, exempt, t.skipped, after, less, |Gone(f, ops)|, Rule(OpMatch(op), op.accept));
      }
    }
  }

  // ------------------------------------------------------------------
  // What it means
  // ------------------------------------------------------------------

  lemma {:induction false} NoneGone(f: Family, ops: seq<Op>)
    requires forall i :: 0 <= i < |ops| ==> Covered(f, ops[i])
    ensures Gone(f, ops) == {}
  {
    hide LocalSources;
    if ops != [] {
      NoneGone(f, ops[..|ops| - 1]);
    }
  }

  /** In a run without built-in and all-addresses prefixes no base rule is missing, and the rest is
      the standing decisions, newest first, and the tail. */
  lemma OrdinaryRest(f: Family, ops: seq<Op>)
    requires Proper(f, ops)
    ensures Gone(f, ops) == {} && Rest(f, ops) == Standing(ops, |ops|) + Tail(ops)
  {
    hide Rest, Gone, BaseRules, After, Standing, Tail, BaseRuleCount, Left;
    assert Started(ops);
    ChainFormula(f, [], ops);
    ChainShape(f, [], ops);
    NoneGone(f, ops);
    LeftKeeps(Base(f, [], ops), {}, Any);
    var base := Base(f, [], ops);
    assert base + Standing(ops, |ops|) + Tail(ops) == base + (Standing(ops, |ops|) + Tail(ops));
    assert Rest(f, ops) == (base + Rest(f, ops))[|base|..];
  }

  /** After every run a packet that a remaining base rule accepts is accepted, and any other one
      is decided by the rest. */
  lemma RunVerdict(f: Family, exempt: seq<nat>, ops: seq<Op>, p: Packet)
    requires Started(ops)
    ensures Verdict(f, After(f, exempt, ops).chain, p)
            == if Verdict(f, BaseLeft(f, exempt, ops), p).Some? then Some(true) else Verdict(f, Rest(f, ops), p)
  {
    hide Rest, Gone, Left, BaseRules, After, BaseRuleCount, Matches;
    ChainFormula(f, exempt, ops);
    VerdictSplits(f, BaseLeft(f, exempt, ops), Rest(f, ops), p);
    BaseIsApart(f, exempt, LastSupport(ops), Any);
    LeftKeeps(Base(f, exempt, ops), Gone(f, ops), Any);
    AcceptingVerdict(f, BaseLeft(f, exempt, ops), p);
  }

  /** Main result: after every run a decision on any source goes behind as many other rules as built-in
      prefixes were touched since the last set-up, and is lost when fewer are there. So a packet of
      the source that no base rule accepts gets the verdict of these rules, if they have one, and
      otherwise that of the decision, if it was not lost. */
  lemma NewestDecision(f: Family, exempt: seq<nat>, ops: seq<Op>, op: Op, p: Packet)
    requires Started(ops) && Decision(op) && Matches(f, OpMatch(op), p)
    requires Verdict(f, BaseLeft(f, exempt, ops + [op]), p) == None
    ensures var others, depth := Without(Rest(f, ops), OpMatch(op)), |Gone(f, ops + [op])|;
            var first := if depth <= |others| then others[..depth] else others;
            Verdict(f, After(f, exempt, ops + [op]).chain, p)
            == if Verdict(f, first, p).Some? then Verdict(f, first, p)
               else if depth <= |others| then Some(op.accept)
               else None
  {
    hide Rest, Gone, BaseLeft, After, Matches, Without, OpMatch;
    var next := ops + [op];
    assert Started(next);
    assert next[..|next| - 1] == ops;
    RunVerdict(f, exempt, next, p);
    RestStep(f, next);
    var others, depth, r := Without(Rest(f, ops), OpMatch(op)), |Gone(f, next)|, Rule(OpMatch(op), op.accept);
    if depth <= |others| {
      VerdictSplits(f, others[..depth] + [r], others[depth..], p);
      VerdictSplits(f, others[..depth], [r], p);
    }
  }
}
