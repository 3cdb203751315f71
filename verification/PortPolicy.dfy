/** Port access policies (pkg/iptables/manager.go:425-439, 510-545, 555-760): a
    policy chain per table, and one jump per port at the head of every parent chain. */
module PortPolicy {
  import opened Bytes
  import opened Decimal
  import opened FirewallChain
  import opened ParentJumps

  datatype PolicyChain = PolicyChain(rules: seq<Rule>, drop: bool)

  /** One table: its parent chains, and the policy chain when it exists. */
  datatype Kernel = Kernel(parents: map<string, seq<Fields>>, policy: Option<PolicyChain>)

  datatype Policy = Policy(
    ports: seq<int>,
    allow: seq<Address>,
    block: seq<Address>,
    locals: bool,
    drop: bool,               // default DROP, else RETURN
    parents: seq<string>)

  /** The stored form of `-p tcp --dport port -j chain`. */
  function JumpRule(chain: string, port: nat): Fields {
    ["-p", "tcp", "-m", "tcp", "--dport", FormatInt(port), "-j", chain]
  }

  // ------------------------------------------------------------------
  // Specification
  // ------------------------------------------------------------------

  /** The first occurrence of every port, in order. */
  function Distinct(ports: seq<int>): (d: seq<int>)
    ensures forall x :: x in d <==> x in ports
    ensures forall i, j :: 0 <= i < j < |d| ==> d[i] != d[j]
  {
    if ports == [] then []
    else
      var d, last := Distinct(ports[..|ports| - 1]), ports[|ports| - 1];
      assert ports == ports[..|ports| - 1] + [last];
      if last in d then d else d + [last]
  }

  predicate IsFirst(ports: seq<int>, i: nat) {
    i < |ports| && forall j :: 0 <= j < i ==> ports[j] != ports[i]
  }

  /** The first places of the elements of a list, in order. */
  ghost predicate FirstPlaces(ports: seq<int>, at: seq<nat>) {
    (forall j, k :: 0 <= j < k < |at| ==> at[j] < at[k]) && (forall i :: i in at <==> IsFirst(ports, i))
  }

  /** The elements kept are those at their first place, in order. */
  lemma {:induction false} DistinctAreFirst(ports: seq<int>) returns (at: seq<nat>)
    ensures FirstPlaces(ports, at) && |at| == |Distinct(ports)|
    ensures forall k :: 0 <= k < |at| ==> at[k] < |ports| && ports[at[k]] == Distinct(ports)[k]
  {
    hide FirstPlaces;
    if ports == [] {
      at := [];
      assert FirstPlaces(ports, at) by {
        NoPlaces();
      }
    } else {
      var n := |ports| - 1;
      var was := DistinctAreFirst(ports[..n]);
      PlacesNext(ports, was);
      at := if ports[n] in ports[..n] then was else was + [n];
    }
  }

  lemma NoPlaces()
    ensures FirstPlaces([], [])
  {
  }

  lemma PlacesNext(ports: seq<int>, at: seq<nat>)
    requires ports != [] && FirstPlaces(ports[..|ports| - 1], at)
    ensures FirstPlaces(ports, if ports[|ports| - 1] in ports[..|ports| - 1] then at else at + [|ports| - 1])
  {
    var n := |ports| - 1;
    var front, next := ports[..n], if ports[n] in ports[..n] then at else at + [n];
    LastIsFirst(ports);
    forall i: nat ensures i in next <==> IsFirst(ports, i) {
      StaysFirst(ports, i);
    }
    forall j, k | 0 <= j < k < |next| ensures next[j] < next[k] {
      assert next[j] in at;
    }
  }

  lemma StaysFirst(ports: seq<int>, i: nat)
    requires ports != []
    ensures i < |ports| - 1 ==> (IsFirst(ports[..|ports| - 1], i) <==> IsFirst(ports, i))
    ensures i >= |ports| - 1 ==> !IsFirst(ports[..|ports| - 1], i)
  {
  }

  lemma LastIsFirst(ports: seq<int>)
    requires ports != []
    ensures IsFirst(ports, |ports| - 1) <==> ports[|ports| - 1] !in ports[..|ports| - 1]
  {
    var n := |ports| - 1;
    assert forall j :: 0 <= j < n ==> ports[..n][j] == ports[j];
  }

  predicate AllPorts(ports: seq<int>) {
    forall i :: 0 <= i < |ports| ==> ValidPort(ports[i])
  }

  lemma AllPortsAre(ports: seq<int>)
    ensures AllPorts(ports) <==> forall i :: 0 <= i < |ports| ==> 1 <= ports[i] <= 65535
  {
  }

  predicate NoRepeats(ports: seq<nat>) {
    forall i, j :: 0 <= i < j < |ports| ==> ports[i] != ports[j]
  }

  /** Each port's jump, the last port's first. */
  function Jumps(chain: string, ports: seq<nat>): seq<Fields> {
    if ports == [] then [] else [JumpRule(chain, ports[|ports| - 1])] + Jumps(chain, ports[..|ports| - 1])
  }

  function Linked(show: Show, rules: seq<Fields>, chain: string, ports: seq<nat>): seq<Fields> {
    Jumps(chain, ports) + Unlinked(show, rules, chain)
  }

  /** Every name in turn; a name that is listed twice is linked twice. */
  function LinkedIn(show: Show, parents: map<string, seq<Fields>>, names: seq<string>, chain: string, ports: seq<nat>)
    : (now: map<string, seq<Fields>>)
    ensures now.Keys == parents.Keys
  {
    if names == [] then parents
    else
      var now, p := LinkedIn(show, parents, names[..|names| - 1], chain, ports), names[|names| - 1];
      if p in now then now[p := Linked(show, now[p], chain, ports)] else now
  }

  function Of(f: Family, sources: seq<Address>): seq<Source> {
    if sources == [] then []
    else
      var rest := Of(f, sources[1..]);
      if sources[0].Resolved? && sources[0].family == f then [sources[0].src] + rest else rest
  }

  function Decisions(sources: seq<Source>, accept: bool): seq<Rule> {
    if sources == [] then [] else [Rule(SourceMatch(sources[0]), accept)] + Decisions(sources[1..], accept)
  }

  function PolicyOf(f: Family, policy: Policy): PolicyChain {
    PolicyChain(
      Decisions(if policy.locals then LocalSources(f) else [], true)
      + Decisions(Of(f, policy.block), false)
      + Decisions(Of(f, policy.allow), true),
      policy.drop)
  }

  predicate Active(f: Family, policy: Policy) {
    policy.locals || policy.drop || Of(f, policy.allow) != [] || Of(f, policy.block) != []
  }

  function Synced(show: Show, f: Family, k: Kernel, policy: Policy, chain: string, ports: seq<nat>): Kernel {
    Kernel(LinkedIn(show, k.parents, policy.parents, chain, ports), Some(PolicyOf(f, policy)))
  }

  /** Whether any rule still refers to the chain, which keeps -X from deleting it. */
  predicate Referred(parents: map<string, seq<Fields>>, chain: string) {
    exists p :: p in parents && exists i :: 0 <= i < |parents[p]| && HasJump(parents[p][i], chain)
  }

  function Cleared(show: Show, k: Kernel, names: seq<string>, chain: string): Kernel {
    var parents := LinkedIn(show, k.parents, names, chain, []);
    Kernel(parents, if k.policy.Some? && Referred(parents, chain) then Some(PolicyChain([], false)) else None)
  }

  // ------------------------------------------------------------------
  // Linking
  // ------------------------------------------------------------------

  /** A chain name, and a kernel tool that lists neither it nor the jumps to it in quotes. */
  ghost predicate ChainName(show: Show, chain: string) {
    && Faithful(show) && Plain(show, BareJump(chain))
    && forall port: nat :: Plain(show, JumpRule(chain, port))
  }

  lemma JumpIsRemovable(show: Show, chain: string, port: nat)
    requires ChainName(show, chain)
    ensures Removable(show, JumpRule(chain, port), chain)
    ensures Stored(JumpRule(chain, port))
  {
    var r, text := JumpRule(chain, port), FormatInt(port);
    hide Faithful;
    DigitsAreWord(text);
    assert Plain(show, r);
    assert r[6] == "-j" && r[6 + 1] == chain;
  }

  lemma DigitsAreWord(text: string)
    requires text != "" && AllDigits(text)
    ensures Word(text) && StoredField(text)
  {
  }

  lemma JumpRuleInjective(chain: string, a: nat, b: nat)
    requires JumpRule(chain, a) == JumpRule(chain, b)
    ensures a == b
  {
    assert JumpRule(chain, a)[5] == JumpRule(chain, b)[5];
    assert Value(FormatInt(a)) == Value(FormatInt(b));
  }

  lemma {:induction false} JumpsAre(chain: string, ports: seq<nat>, r: Fields)
    ensures r in Jumps(chain, ports) <==> exists i :: 0 <= i < |ports| && r == JumpRule(chain, ports[i])
  {
    hide JumpRule;
    if ports != [] {
      var front, last := ports[..|ports| - 1], ports[|ports| - 1];
      JumpsAre(chain, front, r);
      assert r in Jumps(chain, ports) <==> r == JumpRule(chain, last) || r in Jumps(chain, front);
      hide Jumps;
      if i :| 0 <= i < |front| && r == JumpRule(chain, front[i]) {
        assert r == JumpRule(chain, ports[i]);
      }
      if i :| 0 <= i < |ports| && r == JumpRule(chain, ports[i]) {
        assert i < |front| ==> r == JumpRule(chain, front[i]);
      }
    }
  }

  lemma {:induction false} JumpsAreRemovable(show: Show, chain: string, ports: seq<nat>)
    requires ChainName(show, chain)
    ensures forall r :: r in Jumps(chain, ports) ==> Removable(show, r, chain) && Stored(r)
    ensures NotJumping(show, Jumps(chain, ports), chain) == []
  {
    hide JumpRule, Removable, Stored;
    if ports != [] {
      JumpIsRemovable(show, chain, ports[|ports| - 1]);
      JumpsAreRemovable(show, chain, ports[..|ports| - 1]);
    }
  }

  /** The jump of a port that is not linked is new, and in front of the others links the port too. */
  lemma NewJump(show: Show, rules: seq<Fields>, chain: string, ports: seq<nat>, port: nat)
    requires ChainName(show, chain) && Listable(show, rules)
    ensures JumpRule(chain, port) in Linked(show, rules, chain, ports) <==> port in ports
    ensures [JumpRule(chain, port)] + Linked(show, rules, chain, ports) == Linked(show, rules, chain, ports + [port])
  {
    hide JumpRule, Unlinked, Removable, Listable, Plain, Jumps;
    var r := JumpRule(chain, port);
    JumpIsRemovable(show, chain, port);
    UnlinkedIsPart(show, rules, chain);
    JumpOfPort(chain, ports, port);
    JumpsNext(chain, ports, port);
    assert [r] + (Jumps(chain, ports) + Unlinked(show, rules, chain))
      == [r] + Jumps(chain, ports) + Unlinked(show, rules, chain);
  }

  lemma JumpOfPort(chain: string, ports: seq<nat>, port: nat)
    ensures JumpRule(chain, port) in Jumps(chain, ports) <==> port in ports
  {
    hide JumpRule, Jumps;
    JumpsAre(chain, ports, JumpRule(chain, port));
    if j :| 0 <= j < |ports| && JumpRule(chain, port) == JumpRule(chain, ports[j]) {
      JumpRuleInjective(chain, port, ports[j]);
    }
  }

  lemma JumpsNext(chain: string, ports: seq<nat>, port: nat)
    ensures Jumps(chain, ports + [port]) == [JumpRule(chain, port)] + Jumps(chain, ports)
  {
    hide JumpRule;
    assert (ports + [port])[..|ports|] == ports;
  }

  /** addTCPPortJump: -C, then -I at the head. A parent that is linked for some ports is linked
      for one more; a port that was linked already stays linked once. */
  method AddTCPPortJump(show: Show, rules: seq<Fields>, chain: string, port: nat,
                        ghost was: seq<Fields>, ghost ports: seq<nat>)
    returns (linked: seq<Fields>)
    requires ChainName(show, chain) && Listable(show, was) && rules == Linked(show, was, chain, ports)
    ensures linked == Linked(show, was, chain, if port in ports then ports else ports + [port])
  {
    hide Linked, JumpRule, ChainName, Listable;
    NewJump(show, was, chain, ports, port);
    if JumpRule(chain, port) in rules {
      return rules;
    }
    return [JumpRule(chain, port)] + rules;
  }

  method LinkParent(show: Show, rules: seq<Fields>, parent: string, chain: string, ports: seq<nat>)
    returns (linked: seq<Fields>)
    requires Word(parent) && ChainName(show, chain) && NoRepeats(ports)
    requires Listable(show, rules)
    ensures linked == Linked(show, rules, chain, ports)
  {
    hide Linked, JumpRule, Listable, ChainName;
    linked := UnlinkParent(show, rules, parent, chain);
    assert ports[..0] == [];
    for i := 0 to |ports|
      invariant linked == Linked(show, rules, chain, ports[..i])
    {
      assert ports[..i + 1] == ports[..i] + [ports[i]] && ports[i] !in ports[..i];
      linked := AddTCPPortJump(show, linked, chain, ports[i], rules, ports[..i]);
    }
    assert ports[..|ports|] == ports;
  }

  method UnlinkParent(show: Show, rules: seq<Fields>, parent: string, chain: string) returns (left: seq<Fields>)
    requires Word(parent) && ChainName(show, chain) && Listable(show, rules)
    ensures left == Linked(show, rules, chain, []) == Unlinked(show, rules, chain)
  {
    hide Plain, Listable, Unlinked;
    left := DeleteParentJumpsToChain(show, rules, parent, chain, true);
    assert [] + left == left;
  }

  /** Duplicate and unsorted ports: the first occurrence of each stays, an invalid one is an error. */
  method NormalizePorts(ports: seq<int>) returns (out: Option<seq<nat>>)
    ensures out.Some? <==> forall i :: 0 <= i < |ports| ==> 1 <= ports[i] <= 65535
    ensures out.Some? ==> out.value == Distinct(ports) && NoRepeats(out.value)
  {
    var kept: seq<nat> := [];
    var seen: set<int> := {};
    for i := 0 to |ports|
      invariant forall k :: 0 <= k < i ==> ValidPort(ports[k])
      invariant kept == Distinct(ports[..i])
      invariant forall x :: x in seen <==> x in kept
    {
      assert ports[..i + 1][..i] == ports[..i];
      if !ValidPort(ports[i]) {
        return None;
      }
      if ports[i] !in seen {
        seen := seen + {ports[i]};
        kept := kept + [ports[i]];
      }
    }
    assert ports[..|ports|] == ports;
    return Some(kept);
  }

  // ------------------------------------------------------------------
  // The firewall
  // ------------------------------------------------------------------

  ghost predicate ValidKernel(show: Show, k: Kernel, chain: string) {
    forall p :: p in k.parents ==> Word(p) && p != chain && Listable(show, k.parents[p])
  }

  class Firewall {
    const tables: set<Family>
    const show: Show
    var kernel: map<Family, Kernel>

    ghost predicate Valid(chain: string)
      reads this
    {
      ChainName(show, chain) && kernel.Keys == tables && forall f :: f in kernel ==> ValidKernel(show, kernel[f], chain)
    }

    constructor (tables: set<Family>, show: Show, kernel: map<Family, Kernel>)
      ensures this.tables == tables && this.show == show && this.kernel == kernel
    {
      this.tables, this.show, this.kernel := tables, show, kernel;
    }

    predicate Known(a: Address) {
      a.Resolved? && a.family in tables
    }

    /** SyncTCPPortAccessPolicy. Invalid input is an error that leaves the kernel as it was. */
    method Sync(policy: Policy, chain: string) returns (ok: bool)
      requires Valid(chain)
      modifies this`kernel
      ensures Valid(chain)
      ensures !Usable(policy) ==> !ok && kernel == old(kernel)
      ensures Usable(policy) ==>
                (ok <==>
                 chain !in policy.parents || policy.ports == [] || forall f :: f in tables ==> !Active(f, policy))
      ensures ok ==> forall f :: f in tables ==> kernel[f] == Result(show, f, old(kernel)[f], policy, chain)
    {
      hide Result, Active, AllPorts, PortsOf, ValidKernel, ChainName, NoRepeats, Distinct;
      AllPortsAre(policy.ports);
      var normalized := NormalizePorts(policy.ports);
      var known := AllKnown(policy.allow + policy.block);
      if normalized == None || !known {
        return false;
      }
      PortsAreDistinct(policy);
      ok := true;
      var todo := tables;
      while todo != {}
        invariant Valid(chain) && ok && todo <= tables
        invariant forall f :: f in tables ==>
                    kernel[f] == if f in todo then old(kernel)[f] else Result(show, f, old(kernel)[f], policy, chain)
        invariant forall f :: f in tables - todo && Active(f, policy) ==> policy.ports == [] || chain !in policy.parents
      {
        var f :| f in todo;
        var k;
        k, ok := SyncTable(show, f, kernel[f], policy, chain, normalized.value);
        kernel := kernel[f := k];
        if !ok {
          return;
        }
        todo := todo - {f};
      }
    }

    predicate Usable(policy: Policy) {
      AllPorts(policy.ports) && forall a :: a in policy.allow + policy.block ==> Known(a)
    }

    method AllKnown(sources: seq<Address>) returns (known: bool)
      ensures known <==> forall a :: a in sources ==> Known(a)
    {
      for i := 0 to |sources|
        invariant forall k :: 0 <= k < i ==> Known(sources[k])
      {
        if !Known(sources[i]) {
          return false;
        }
      }
      return true;
    }
  }

  function PortsOf(policy: Policy): seq<nat> {
    if AllPorts(policy.ports) then
      var d := Distinct(policy.ports);
      assert forall i :: 0 <= i < |d| ==> d[i] in policy.ports;
      d
    else []
  }

  /** What a successful synchronisation leaves of one table. */
  function Result(show: Show, f: Family, k: Kernel, policy: Policy, chain: string): Kernel {
    if policy.ports == [] || !Active(f, policy) then Cleared(show, k, policy.parents, chain)
    else Synced(show, f, k, policy, chain, PortsOf(policy))
  }

  // ------------------------------------------------------------------
  // One table
  // ------------------------------------------------------------------

  /** One table's part of a synchronisation. An active table has its policy chain from the
      first step on, so that linking the chain into itself fails. */
  method SyncTable(show: Show, f: Family, k: Kernel, policy: Policy, chain: string, ports: seq<nat>)
    returns (after: Kernel, ok: bool)
    requires ChainName(show, chain) && ValidKernel(show, k, chain) && ports == PortsOf(policy) && AllPorts(policy.ports)
    ensures ValidKernel(show, after, chain)
    ensures ok <==> policy.ports == [] || !Active(f, policy) || chain !in policy.parents
    ensures ok ==> after == Result(show, f, k, policy, chain)
  {
    hide LinkedIn, PolicyOf, Active, AllPorts, ChainName, ValidKernel, Distinct;
    PortsAreDistinct(policy);
    SameParents(show, k.parents, k.policy, chain);
    if ports == [] || !Active(f, policy) {
      after := ClearTable(show, k, chain, policy.parents);
      return after, true;
    }
    if chain in policy.parents {
      return k, false;
    }
    var parents := LinkParents(show, k.parents, chain, policy.parents, ports);
    var contents := ApplyPolicy(f, policy);
    SameParents(show, parents, Some(contents), chain);
    return Kernel(parents, Some(contents)), true;
  }

  lemma SameParents(show: Show, parents: map<string, seq<Fields>>, policy: Option<PolicyChain>, chain: string)
    ensures ValidKernel(show, Kernel(parents, policy), chain) <==> ValidKernel(show, Kernel(parents, None), chain)
  {
    hide Stored;
  }

  lemma PortsAreDistinct(policy: Policy)
    requires AllPorts(policy.ports)
    ensures NoRepeats(PortsOf(policy)) && (PortsOf(policy) == [] <==> policy.ports == [])
    ensures PortsOf(policy) == Distinct(policy.ports)
  {
    NonePorts(policy.ports);
  }

  /** clearTCPPortAccessPolicyForTable */
  method ClearTable(show: Show, k: Kernel, chain: string, parents: seq<string>) returns (after: Kernel)
    requires ChainName(show, chain) && ValidKernel(show, k, chain)
    ensures ValidKernel(show, after, chain) && after == Cleared(show, k, parents, chain)
  {
    hide LinkedIn, ChainName, ValidKernel, Referred;
    SameParents(show, k.parents, k.policy, chain);
    var left := LinkParents(show, k.parents, chain, parents, []);
    SameParents(show, left, Some(PolicyChain([], false)), chain);
    if k.policy.Some? && Referred(left, chain) {
      return Kernel(left, Some(PolicyChain([], false)));
    }
    return Kernel(left, None);
  }

  /** The links of one table: every existing parent is unlinked, then linked per port. */
  method LinkParents(show: Show, parents: map<string, seq<Fields>>, chain: string, names: seq<string>, ports: seq<nat>)
    returns (now: map<string, seq<Fields>>)
    requires ChainName(show, chain) && NoRepeats(ports) && ValidKernel(show, Kernel(parents, None), chain)
    ensures now == LinkedIn(show, parents, names, chain, ports) && ValidKernel(show, Kernel(now, None), chain)
  {
    hide LinkedIn, NoRepeats, Stored, Linked, Word, ChainName;
    now := parents;
    LinkNone(show, parents, chain, ports);
    assert names[..0] == [];
    for i := 0 to |names|
      invariant now == LinkedIn(show, parents, names[..i], chain, ports)
      invariant ValidKernel(show, Kernel(now, None), chain)
    {
      LinkNext(show, parents, names, chain, ports, i);
      if names[i] in now {
        LinkedIsListable(show, now[names[i]], chain, ports);
        var linked := LinkParent(show, now[names[i]], names[i], chain, ports);
        now := now[names[i] := linked];
      }
    }
    assert names[..|names|] == names;
  }

  /** applyTCPPortAccessPolicy: one restore that flushes and refills the policy chain. */
  method ApplyPolicy(f: Family, policy: Policy) returns (contents: PolicyChain)
    ensures contents == PolicyOf(f, policy)
  {
    hide LocalSources, Decisions, Of;
    var locals := if policy.locals then LocalSources(f) else [];
    var blocked := Select(f, policy.block);
    var allowed := Select(f, policy.allow);
    var rules := AppendDecisions([], locals, true);
    assert [] + Decisions(locals, true) == Decisions(locals, true);
    rules := AppendDecisions(rules, blocked, false);
    rules := AppendDecisions(rules, allowed, true);
    return PolicyChain(rules, policy.drop);
  }

  lemma NonePorts(ports: seq<int>)
    ensures Distinct(ports) == [] <==> ports == []
  {
    if ports != [] {
      assert ports[0] in Distinct(ports);
    }
  }

  lemma LinkNone(show: Show, parents: map<string, seq<Fields>>, chain: string, ports: seq<nat>)
    ensures LinkedIn(show, parents, [], chain, ports) == parents
  {
  }

  lemma LinkNext(show: Show, parents: map<string, seq<Fields>>, names: seq<string>, chain: string, ports: seq<nat>,
                 i: nat)
    requires i < |names|
    ensures var now := LinkedIn(show, parents, names[..i], chain, ports);
            LinkedIn(show, parents, names[..i + 1], chain, ports)
            == if names[i] in now then now[names[i] := Linked(show, now[names[i]], chain, ports)] else now
  {
    hide Linked;
    assert names[..i + 1][..i] == names[..i];
  }

  lemma LinkedIsListable(show: Show, rules: seq<Fields>, chain: string, ports: seq<nat>)
    requires ChainName(show, chain) && Listable(show, rules)
    ensures Listable(show, Linked(show, rules, chain, ports))
  {
    hide Stored, Jumps, Unlinked, Plain, Faithful, HasJump;
    JumpsAreRemovable(show, chain, ports);
    UnlinkedIsPart(show, rules, chain);
  }

  method Select(f: Family, sources: seq<Address>) returns (selected: seq<Source>)
    ensures selected == Of(f, sources)
  {
    selected := [];
    assert sources[0..] == sources;
    for i := 0 to |sources|
      invariant selected + Of(f, sources[i..]) == Of(f, sources)
    {
      assert sources[i..][1..] == sources[i + 1..];
      if sources[i].Resolved? && sources[i].family == f {
        selected := selected + [sources[i].src];
      }
    }
  }

  method AppendDecisions(rules: seq<Rule>, sources: seq<Source>, accept: bool) returns (more: seq<Rule>)
    ensures more == rules + Decisions(sources, accept)
  {
    hide SourceMatch;
    more := rules;
    assert sources[0..] == sources;
    for i := 0 to |sources|
      invariant more + Decisions(sources[i..], accept) == rules + Decisions(sources, accept)
    {
      assert sources[i..][1..] == sources[i + 1..];
      more := more + [Rule(SourceMatch(sources[i]), accept)];
    }
  }
}
