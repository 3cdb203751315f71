/** The firewall chain the gateway owns (pkg/iptables/manager.go): base rules, user
    rules inserted at a computed position behind them, and a final DROP. A kernel
    chain is a sequence of rules; the first rule that matches decides. */
module FirewallChain {
  import opened Bytes

  datatype Family = IPv4 | IPv6

  function Width(f: Family): nat {
    if f == IPv4 then 32 else 128
  }

  function Pow2(n: nat): (p: nat)
    ensures p >= 1
  {
    if n == 0 then 1 else 2 * Pow2(n - 1)
  }

  /** An address prefix of one family, in the kernel's canonical form: the top
      `bits` bits of the address, as a number. */
  datatype Source = Source(network: nat, bits: nat)

  datatype Packet = Packet(
    address: nat,             // source address
    loopback: bool,
    established: bool,
    icmp: bool,
    tcpPort: Option<nat>,     // destination ports
    udpPort: Option<nat>)

  datatype Match =
    | Any
    | Loopback
    | Established(conntrack: bool)
    | From(src: Source)
    | Icmp
    | Ports(udp: bool, ports: seq<nat>)
    | FromToPort(src: Source, port: nat)

  datatype Rule = Rule(match_: Match, accept: bool)

  const DROP_ALL := Rule(Any, false)

  /** `-s` with a source; the kernel stores the all-addresses prefix as no source at all. */
  function SourceMatch(src: Source): Match {
    if src.bits == 0 then Any else From(src)
  }

  predicate InSource(f: Family, src: Source, address: nat) {
    src.bits <= Width(f) && address / Pow2(Width(f) - src.bits) == src.network
  }

  predicate Matches(f: Family, m: Match, p: Packet) {
    match m
    case Any => true
    case Loopback => p.loopback
    case Established(_) => p.established
    case From(src) => InSource(f, src, p.address)
    case Icmp => p.icmp
    case Ports(udp, ports) => var port := if udp then p.udpPort else p.tcpPort; port.Some? && port.value in ports
    case FromToPort(src, port) => InSource(f, src, p.address) && p.tcpPort == Some(port)
  }

  /** The verdict of a chain; None when no rule matches and the packet returns. */
  function Verdict(f: Family, chain: seq<Rule>, p: Packet): Option<bool> {
    if chain == [] then None
    else if Matches(f, chain[0].match_, p) then Some(chain[0].accept)
    else Verdict(f, chain[1..], p)
  }

  /** A chain put together from two decides as the first, else as the second. */
  lemma {:induction false} VerdictSplits(f: Family, a: seq<Rule>, b: seq<Rule>, p: Packet)
    ensures Verdict(f, a + b, p) == if Verdict(f, a, p).Some? then Verdict(f, a, p) else Verdict(f, b, p)
  {
    hide Matches;
    if a == [] {
      assert a + b == b;
    } else {
      assert (a + b)[1..] == a[1..] + b;
      VerdictSplits(f, a[1..], b, p);
    }
  }

  // ------------------------------------------------------------------
  // Kernel commands on a chain
  // ------------------------------------------------------------------

  /** -D: takes out the first rule equal to `r`. */
  function DeleteOne(chain: seq<Rule>, r: Rule): seq<Rule> {
    if chain == [] then []
    else if chain[0] == r then chain[1..]
    else [chain[0]] + DeleteOne(chain[1..], r)
  }

  /** -D until it fails. */
  function DeleteAll(chain: seq<Rule>, r: Rule): seq<Rule> {
    if chain == [] then []
    else if chain[0] == r then DeleteAll(chain[1..], r)
    else [chain[0]] + DeleteAll(chain[1..], r)
  }

  /** -I at a position counted from 1; fails beyond the end of the chain. */
  function InsertAt(chain: seq<Rule>, position: nat, r: Rule): Option<seq<Rule>> {
    if 1 <= position <= |chain| + 1 then Some(chain[..position - 1] + [r] + chain[position - 1..]) else None
  }

  // ------------------------------------------------------------------
  // Base rules
  // ------------------------------------------------------------------

  /** localCIDRv4 and localCIDRv6 */
  function LocalSources(f: Family): seq<Source> {
    if f == IPv4 then
      [Source(10, 8), Source(0xac1, 12), Source(0xc0a8, 16), Source(0xa9fe, 16), Source(0xac11, 16)]
    else
      [Source(0x7e, 7), Source(0x3fa, 10)]
  }

  const CHUNK := 15

  /** Two rules for every fifteen exempt ports. */
  function ExemptRules(ports: seq<nat>): seq<Rule> {
    if ports == [] then []
    else
      var chunk := if |ports| <= CHUNK then ports else ports[..CHUNK];
      [Rule(Ports(false, chunk), true), Rule(Ports(true, chunk), true)] + ExemptRules(ports[|chunk|..])
  }

  function AcceptFrom(sources: seq<Source>): seq<Rule> {
    seq(|sources|, i requires 0 <= i < |sources| => Rule(From(sources[i]), true))
  }

  /** What the kernel says to the state and conntrack matches. */
  datatype Support = HasState | HasConntrack | HasNeither | Fails

  function EstablishedRules(support: Support): seq<Rule> {
    match support
    case HasState => [Rule(Established(false), true)]
    case HasConntrack => [Rule(Established(true), true)]
    case _ => []
  }

  /** The rules in front of the final DROP of a chain just set up. */
  function BaseRules(f: Family, exempt: seq<nat>, support: Support): seq<Rule> {
    [Rule(Loopback, true)] + EstablishedRules(support) + AcceptFrom(LocalSources(f)) + [Rule(Icmp, true)]
    + ExemptRules(exempt)
  }

  /** baseRuleCountForTable */
  function BaseRuleCount(f: Family, exempt: seq<nat>, skipped: bool): nat {
    1 + (if skipped then 0 else 1) + |LocalSources(f)| + 1
    + (if |exempt| > 0 then (|exempt| + 14) / 15 * 2 else 0)
  }

  lemma {:induction false} ExemptRuleCount(ports: seq<nat>)
    ensures |ExemptRules(ports)| == (|ports| + 14) / 15 * 2
    decreases |ports|
  {
    hide ExemptRules;
    if ports == [] {
      NoExempt(ports);
    } else {
      ExemptStep(ports);
      if |ports| <= CHUNK {
        NoExempt(ports[|ports|..]);
      } else {
        ExemptRuleCount(ports[CHUNK..]);
        assert (|ports| - 15 + 14) / 15 == (|ports| + 14) / 15 - 1;
      }
    }
  }

  /** The arithmetic count is the number of rules appended before the DROP, for
      every exempt-port list and however the state match fell back. */
  lemma {:induction false} BaseRuleCountIsExact(f: Family, exempt: seq<nat>, support: Support)
    requires support != Fails
    ensures |BaseRules(f, exempt, support)| == BaseRuleCount(f, exempt, support == HasNeither)
  {
    ExemptRuleCount(exempt);
  }

  // ------------------------------------------------------------------
  // One table, operation by operation
  // ------------------------------------------------------------------

  /** What one operation asks of one table. */
  datatype Op =
    | Flush(support: Support)
    | Decide(src: Source, accept: bool)                     // AllowIP, BlockIP
    | Remove(src: Source)                                   // RemoveIPRule
    | DecidePort(src: Source, port: nat, accept: bool)      // ensureTCPPortRule
    | RemovePort(src: Source, port: nat)                    // RemoveTCPPortRule
    | BlockAll
    | AllowAll

  datatype Table = Table(chain: seq<Rule>, skipped: bool)

  function ClearIP(chain: seq<Rule>, src: Source): seq<Rule> {
    DeleteOne(DeleteOne(chain, Rule(SourceMatch(src), true)), Rule(SourceMatch(src), false))
  }

  function ClearPort(chain: seq<Rule>, src: Source, port: nat): seq<Rule> {
    DeleteAll(DeleteAll(chain, Rule(FromToPort(src, port), true)), Rule(FromToPort(src, port), false))
  }

  function InsertBehindBase(f: Family, exempt: seq<nat>, chain: seq<Rule>, skipped: bool, r: Rule): Option<seq<Rule>> {
    InsertAt(chain, BaseRuleCount(f, exempt, skipped) + 1, r)
  }

  /** An insertion past the end of the chain fails and leaves the cleared chain. */
  function OrElse(inserted: Option<seq<Rule>>, cleared: seq<Rule>): seq<Rule> {
    if inserted.Some? then inserted.value else cleared
  }

  function Step(f: Family, exempt: seq<nat>, t: Table, op: Op): Table {
    match op
    case Flush(support) => Table(BaseRules(f, exempt, support) + [DROP_ALL], support == HasNeither)
    case Decide(src, accept) =>
      var cleared := ClearIP(t.chain, src);
      t.(chain := OrElse(InsertBehindBase(f, exempt, cleared, t.skipped, Rule(SourceMatch(src), accept)), cleared))
    case Remove(src) => t.(chain := ClearIP(t.chain, src))
    case DecidePort(src, port, accept) =>
      var cleared := ClearPort(t.chain, src, port);
      t.(chain := OrElse(InsertBehindBase(f, exempt, cleared, t.skipped, Rule(FromToPort(src, port), accept)), cleared))
    case RemovePort(src, port) => t.(chain := ClearPort(t.chain, src, port))
    case BlockAll => t.(chain := DeleteAll(t.chain, DROP_ALL) + [DROP_ALL])
    case AllowAll => t.(chain := DeleteAll(t.chain, DROP_ALL))
  }

  predicate SameElsewhere(f: Family, before: map<Family, seq<Rule>>, after: map<Family, seq<Rule>>) {
    after.Keys == before.Keys && f in before && forall g :: g in before && g != f ==> after[g] == before[g]
  }

  // ------------------------------------------------------------------
  // The manager
  // ------------------------------------------------------------------

  predicate ValidPort(port: int) {
    0 < port <= 65535
  }

  /** An address as tableForAddress resolves it. */
  datatype Address = Invalid | Resolved(family: Family, src: Source)

  class Manager {
    const tables: set<Family>
    const exempt: seq<nat>
    var chain: map<Family, seq<Rule>>
    var skipped: map<Family, bool>

    ghost predicate Valid()
      reads this
    {
      chain.Keys == tables
    }

    constructor (tables: set<Family>, exempt: seq<nat>)
      ensures Valid() && this.tables == tables && this.exempt == exempt
      ensures forall f :: f in tables ==> TableOf(f) == Table([], false)
    {
      this.tables, this.exempt := tables, exempt;
      chain := map f | f in tables :: [];
      skipped := map[];
    }

    function TableOf(f: Family): Table
      requires f in chain
      reads this
    {
      Table(chain[f], f in skipped && skipped[f])
    }

    predicate Reaches(a: Address)
    {
      a.Resolved? && a.family in tables
    }

    method Append(f: Family, r: Rule)
      requires Valid() && f in tables
      modifies this`chain
      ensures Valid() && SameElsewhere(f, old(chain), chain) && chain[f] == old(chain)[f] + [r]
    {
      chain := chain[f := chain[f] + [r]];
    }

    /** appendEstablishedRelatedRule: state, else conntrack, else no rule. */
    method AppendEstablishedRelatedRule(f: Family, support: Support) returns (ok: bool)
      requires Valid() && f in tables
      modifies this
      ensures Valid() && (ok <==> support != Fails)
      ensures SameElsewhere(f, old(chain), chain) && chain[f] == old(chain)[f] + EstablishedRules(support)
      ensures skipped == if ok then old(skipped)[f := support == HasNeither] else old(skipped)
    {
      match support {
        case HasState =>
          Append(f, Rule(Established(false), true));
          skipped := skipped[f := false];
        case HasConntrack =>
          Append(f, Rule(Established(true), true));
          skipped := skipped[f := false];
        case HasNeither =>
          skipped := skipped[f := true];
          assert chain[f] + [] == chain[f];
        case Fails =>
          assert chain[f] + [] == chain[f];
          return false;
      }
      return true;
    }

    method AppendLocals(f: Family)
      requires Valid() && f in tables
      modifies this`chain
      ensures Valid() && SameElsewhere(f, old(chain), chain)
      ensures chain[f] == old(chain)[f] + AcceptFrom(LocalSources(f))
    {
      hide LocalSources;
      var locals := LocalSources(f);
      ghost var all := AcceptFrom(locals);
      for i := 0 to |locals|
        invariant Valid() && SameElsewhere(f, old(chain), chain)
        invariant chain[f] == old(chain)[f] + all[..i]
      {
        assert all[..i + 1] == all[..i] + [all[i]];
        Append(f, Rule(From(locals[i]), true));
      }
      assert all[..|locals|] == all;
    }

    method AppendExempt(f: Family)
      requires Valid() && f in tables
      modifies this`chain
      ensures Valid() && SameElsewhere(f, old(chain), chain)
      ensures chain[f] == old(chain)[f] + ExemptRules(exempt)
    {
      hide ExemptRules;
      var i := 0;
      assert exempt[0..] == exempt;
      while i < |exempt|
        invariant 0 <= i <= |exempt|
        invariant Valid() && SameElsewhere(f, old(chain), chain)
        invariant chain[f] + ExemptRules(exempt[i..]) == old(chain)[f] + ExemptRules(exempt)
      {
        var end := if i + CHUNK > |exempt| then |exempt| else i + CHUNK;
        var chunk := exempt[i..end];
        NextExempt(exempt, i, end, chain[f]);
        Append(f, Rule(Ports(false, chunk), true));
        Append(f, Rule(Ports(true, chunk), true));
        i := end;
      }
      NoExempt(exempt[i..]);
      assert chain[f] + [] == chain[f];
    }

    /** applyBaseRules */
    method ApplyBaseRules(f: Family, support: Support) returns (ok: bool)
      requires Valid() && f in tables
      modifies this
      ensures Valid() && (ok <==> support != Fails)
      ensures SameElsewhere(f, old(chain), chain)
      ensures ok ==> chain[f] == old(chain)[f] + BaseRules(f, exempt, support) + [DROP_ALL]
      ensures skipped == if ok then old(skipped)[f := support == HasNeither] else old(skipped)
    {
      hide ExemptRules, LocalSources, EstablishedRules, AcceptFrom, BaseRules;
      Append(f, Rule(Loopback, true));
      ok := AppendEstablishedRelatedRule(f, support);
      if !ok {
        return;
      }
      AppendLocals(f);
      Append(f, Rule(Icmp, true));
      AppendExempt(f);
      BaseRulesAppended(f, exempt, support, old(chain)[f]);
      Append(f, DROP_ALL);
    }

    /** Flush, and the part of Init that concerns the chain itself: every table's
        chain is emptied and set up again. */
    method Flush(support: Family -> Support) returns (ok: bool)
      requires Valid()
      modifies this
      ensures Valid() && (ok <==> forall f :: f in tables ==> support(f) != Fails)
      ensures ok ==> forall f :: f in tables ==>
                TableOf(f) == Step(f, exempt, old(TableOf(f)), Op.Flush(support(f)))
    {
      hide BaseRules;
      var todo := tables;
      while todo != {}
        invariant Valid() && todo <= tables
        invariant forall f :: f in tables - todo ==>
                    && support(f) != Fails
                    && TableOf(f) == Table(BaseRules(f, exempt, support(f)) + [DROP_ALL], support(f) == HasNeither)
      {
        var f :| f in todo;
        chain := chain[f := []];
        ok := ApplyBaseRules(f, support(f));
        if !ok {
          return;
        }
        assert [] + BaseRules(f, exempt, support(f)) == BaseRules(f, exempt, support(f));
        todo := todo - {f};
      }
      return true;
    }

    /** RemoveIPRule: one -D for either action. */
    method RemoveIPRule(a: Address) returns (ok: bool)
      requires Valid()
      modifies this`chain
      ensures Valid() && (ok <==> Reaches(a))
      ensures chain == if ok then old(chain)[a.family := ClearIP(old(chain)[a.family], a.src)] else old(chain)
    {
      hide SourceMatch, DeleteOne;
      if a == Invalid || a.family !in tables {
        return false;
      }
      var m := SourceMatch(a.src);
      chain := chain[a.family := DeleteOne(chain[a.family], Rule(m, true))];
      chain := chain[a.family := DeleteOne(chain[a.family], Rule(m, false))];
      return true;
    }

    method InsertRule(f: Family, r: Rule) returns (ok: bool)
      requires Valid() && f in tables
      modifies this`chain
      ensures Valid()
      ensures var inserted := InsertBehindBase(f, exempt, old(chain)[f], old(TableOf(f)).skipped, r);
              && ok == inserted.Some?
              && chain == old(chain)[f := OrElse(inserted, old(chain)[f])]
    {
      hide BaseRuleCount, InsertAt;
      var position := BaseRuleCount(f, exempt, f in skipped && skipped[f]) + 1;
      var inserted := InsertAt(chain[f], position, r);
      if inserted == None {
        return false;
      }
      chain := chain[f := inserted.value];
      return true;
    }

    /** AllowIP and BlockIP */
    method DecideIP(a: Address, accept: bool) returns (ok: bool)
      requires Valid()
      modifies this`chain
      ensures Valid()
      ensures !Reaches(a) ==> !ok && chain == old(chain)
      ensures Reaches(a) ==>
                && chain == old(chain)[a.family := chain[a.family]]
                && TableOf(a.family) == Step(a.family, exempt, old(TableOf(a.family)), Decide(a.src, accept))
                && ok == InsertBehindBase(a.family, exempt, ClearIP(old(chain)[a.family], a.src),
                           old(TableOf(a.family)).skipped, Rule(SourceMatch(a.src), accept)).Some?
    {
      hide InsertBehindBase, ClearIP, SourceMatch;
      var removed := RemoveIPRule(a);
      if !removed {
        return false;
      }
      ok := InsertRule(a.family, Rule(SourceMatch(a.src), accept));
    }

    /** RemoveTCPPortRule: -D until it fails, for either action. */
    method RemoveTCPPortRule(a: Address, port: int) returns (ok: bool)
      requires Valid()
      modifies this`chain
      ensures Valid() && (ok <==> 1 <= port <= 65535 && Reaches(a))
      ensures chain == if ok then old(chain)[a.family := ClearPort(old(chain)[a.family], a.src, port)] else old(chain)
    {
      if !ValidPort(port) || a == Invalid || a.family !in tables {
        return false;
      }
      DeleteUntilFailure(a.family, Rule(FromToPort(a.src, port), true));
      DeleteUntilFailure(a.family, Rule(FromToPort(a.src, port), false));
      return true;
    }

    /** -D in a loop: the command fails once no rule equal to `r` is left. */
    method DeleteUntilFailure(f: Family, r: Rule)
      requires Valid() && f in tables
      modifies this`chain
      ensures Valid() && chain == old(chain)[f := DeleteAll(old(chain)[f], r)]
    {
      hide DeleteAll, DeleteOne;
      while r in chain[f]
        invariant Valid() && chain == old(chain)[f := chain[f]]
        invariant DeleteAll(chain[f], r) == DeleteAll(old(chain)[f], r)
        decreases |chain[f]|
      {
        DeleteOneThenAll(chain[f], r);
        chain := chain[f := DeleteOne(chain[f], r)];
      }
      DeleteNothing(chain[f], r);
    }

    /** ensureTCPPortRule */
    method EnsureTCPPortRule(a: Address, port: int, accept: bool) returns (ok: bool)
      requires Valid()
      modifies this`chain
      ensures Valid()
      ensures !(1 <= port <= 65535) || !Reaches(a) ==> !ok && chain == old(chain)
      ensures 1 <= port <= 65535 && Reaches(a) ==>
                && chain == old(chain)[a.family := chain[a.family]]
                && TableOf(a.family) == Step(a.family, exempt, old(TableOf(a.family)), DecidePort(a.src, port, accept))
                && ok == InsertBehindBase(a.family, exempt, ClearPort(old(chain)[a.family], a.src, port),
                           old(TableOf(a.family)).skipped, Rule(FromToPort(a.src, port), accept)).Some?
    {
      hide InsertBehindBase, ClearPort;
      var removed := RemoveTCPPortRule(a, port);
      if !removed {
        return false;
      }
      ok := InsertRule(a.family, Rule(FromToPort(a.src, port), accept));
    }

    /** RemoveBlockAll, which AllowAll calls. */
    method RemoveBlockAll()
      requires Valid()
      modifies this`chain
      ensures Valid() && forall f :: f in tables ==> TableOf(f) == Step(f, exempt, old(TableOf(f)), Op.AllowAll)
    {
      hide DeleteAll;
      var todo := tables;
      while todo != {}
        invariant Valid() && todo <= tables
        invariant forall f :: f in tables ==>
                    chain[f] == if f in todo then old(chain)[f] else DeleteAll(old(chain)[f], DROP_ALL)
      {
        var f :| f in todo;
        DeleteUntilFailure(f, DROP_ALL);
        todo := todo - {f};
      }
    }

    /** BlockAll */
    method BlockAll()
      requires Valid()
      modifies this`chain
      ensures Valid() && forall f :: f in tables ==> TableOf(f) == Step(f, exempt, old(TableOf(f)), Op.BlockAll)
    {
      hide DeleteAll, BaseRules, ClearIP, ClearPort, InsertBehindBase, OrElse;
      RemoveBlockAll();
      ghost var cleared := chain;
      var todo := tables;
      while todo != {}
        invariant Valid() && todo <= tables
        invariant forall f :: f in todo ==> chain[f] == cleared[f]
        invariant forall f :: f in tables && f !in todo ==> chain[f] == cleared[f] + [DROP_ALL]
      {
        var f :| f in todo;
        chain := chain[f := chain[f] + [DROP_ALL]];
        todo := todo - {f};
      }
    }
  }

  // ------------------------------------------------------------------
  // Lemmas the methods use
  // ------------------------------------------------------------------

  lemma BaseRulesAppended(f: Family, exempt: seq<nat>, support: Support, start: seq<Rule>)
    ensures start + [Rule(Loopback, true)] + EstablishedRules(support) + AcceptFrom(LocalSources(f))
            + [Rule(Icmp, true)]
            + ExemptRules(exempt)
            == start + BaseRules(f, exempt, support)
  {
    hide ExemptRules, LocalSources, EstablishedRules, AcceptFrom;
  }

  lemma NoExempt(ports: seq<nat>)
    requires ports == []
    ensures ExemptRules(ports) == []
  {
  }

  lemma NextExempt(exempt: seq<nat>, i: nat, end: nat, front: seq<Rule>)
    requires i < |exempt| && end == if i + CHUNK > |exempt| then |exempt| else i + CHUNK
    ensures var chunk := exempt[i..end];
            front + [Rule(Ports(false, chunk), true)] + [Rule(Ports(true, chunk), true)] + ExemptRules(exempt[end..])
            == front + ExemptRules(exempt[i..])
  {
    hide ExemptRules;
    var rest, chunk := exempt[i..], exempt[i..end];
    assert rest[|chunk|..] == exempt[end..];
    assert chunk == if |rest| <= CHUNK then rest else rest[..CHUNK];
    ExemptStep(rest);
  }

  lemma ExemptStep(ports: seq<nat>)
    requires ports != []
    ensures var chunk := if |ports| <= CHUNK then ports else ports[..CHUNK];
            ExemptRules(ports)
            == [Rule(Ports(false, chunk), true), Rule(Ports(true, chunk), true)] + ExemptRules(ports[|chunk|..])
  {
  }

  lemma {:induction false} DeleteOneThenAll(chain: seq<Rule>, r: Rule)
    requires r in chain
    ensures DeleteAll(DeleteOne(chain, r), r) == DeleteAll(chain, r) && |DeleteOne(chain, r)| < |chain|
  {
    if chain[0] != r {
      DeleteOneThenAll(chain[1..], r);
    }
  }

  lemma {:induction false} DeleteNothing(chain: seq<Rule>, r: Rule)
    requires r !in chain
    ensures DeleteAll(chain, r) == chain && DeleteOne(chain, r) == chain
  {
    if chain != [] {
      DeleteNothing(chain[1..], r);
    }
  }
}
