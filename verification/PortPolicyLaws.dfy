/** What a synchronised port policy means for packets, for the other rules of the parent
    chains and for a second run (pkg/iptables/manager.go:565-739). */
module PortPolicyLaws {
  import opened Bytes
  import opened Decimal
  import opened FirewallChain
  import opened ParentJumps
  import opened PortPolicy

  // ------------------------------------------------------------------
  // The policy chain
  // ------------------------------------------------------------------

  predicate Covers(f: Family, src: Source, address: nat) {
    src.bits == 0 || InSource(f, src, address)
  }

  predicate InAny(f: Family, sources: seq<Source>, address: nat) {
    exists i :: 0 <= i < |sources| && Covers(f, sources[i], address)
  }

  /** None when the packet returns to the parent chain. */
  function PolicyVerdict(f: Family, policy: PolicyChain, p: Packet): Option<bool> {
    var v := Verdict(f, policy.rules, p);
    if v.Some? then v else if policy.drop then Some(false) else None
  }

  lemma InAnyStep(f: Family, sources: seq<Source>, address: nat)
    requires sources != []
    ensures InAny(f, sources, address) <==> Covers(f, sources[0], address) || InAny(f, sources[1..], address)
  {
    hide Covers;
    if i :| 0 <= i < |sources| && Covers(f, sources[i], address) {
      assert i > 0 ==> Covers(f, sources[1..][i - 1], address);
    }
    if i :| 0 <= i < |sources[1..]| && Covers(f, sources[1..][i], address) {
      assert Covers(f, sources[i + 1], address);
    }
  }

  lemma {:induction false} DecisionsVerdict(f: Family, sources: seq<Source>, accept: bool, p: Packet)
    ensures Verdict(f, Decisions(sources, accept), p) == if InAny(f, sources, p.address) then Some(accept) else None
  {
    if sources != [] {
      hide InAny, InSource;
      InAnyStep(f, sources, p.address);
      DecisionsVerdict(f, sources[1..], accept, p);
      var rules := Decisions(sources, accept);
      assert rules[0] == Rule(SourceMatch(sources[0]), accept) && rules[1..] == Decisions(sources[1..], accept);
    }
  }

  /** An address that one of the listed sources of the family covers. */
  ghost predicate Named(f: Family, sources: seq<Address>, address: nat) {
    exists a :: a in sources && a.Resolved? && a.family == f && Covers(f, a.src, address)
  }

  lemma {:induction false} NamedExactly(f: Family, sources: seq<Address>, address: nat)
    ensures InAny(f, Of(f, sources), address) <==> Named(f, sources, address)
  {
    hide Covers, InAny;
    if sources == [] {
      assert !InAny(f, [], address) by {
        NotInNone(f, address);
      }
    } else {
      NamedExactly(f, sources[1..], address);
      assert sources == [sources[0]] + sources[1..];
      if Of(f, sources) != Of(f, sources[1..]) {
        assert Of(f, sources)[0] == sources[0].src && Of(f, sources)[1..] == Of(f, sources[1..]);
        InAnyStep(f, Of(f, sources), address);
      }
      if sources[0].Resolved? && sources[0].family == f {
        assert Of(f, sources)[1..] == Of(f, sources[1..]);
        InAnyStep(f, Of(f, sources), address);
      }
    }
  }

  lemma NotInNone(f: Family, address: nat)
    ensures !InAny(f, [], address)
  {
  }

  /** Local addresses are accepted, else blocked ones dropped, else allowed ones accepted,
      else the default applies. */
  lemma PolicyOrder(f: Family, policy: Policy, p: Packet)
    ensures PolicyVerdict(f, PolicyOf(f, policy), p) ==
            if policy.locals && InAny(f, LocalSources(f), p.address) then Some(true)
            else if Named(f, policy.block, p.address) then Some(false)
            else if Named(f, policy.allow, p.address) then Some(true)
            else if policy.drop then Some(false)
            else None
  {
    hide Decisions, LocalSources, Of, Verdict, Named;
    NamedExactly(f, policy.block, p.address);
    NamedExactly(f, policy.allow, p.address);
    var locals := if policy.locals then LocalSources(f) else [];
    var block, allow := Of(f, policy.block), Of(f, policy.allow);
    DecisionsVerdict(f, locals, true, p);
    DecisionsVerdict(f, block, false, p);
    DecisionsVerdict(f, allow, true, p);
    VerdictSplits(f, Decisions(locals, true) + Decisions(block, false), Decisions(allow, true), p);
    VerdictSplits(f, Decisions(locals, true), Decisions(block, false), p);
  }

  // ------------------------------------------------------------------
  // Parent chains
  // ------------------------------------------------------------------

  /** The kernel around the policy: which packets a rule matches, and what a rule that does
      not jump to the policy chain decides about a packet it matches. */
  datatype World = World(hits: (Fields, Packet) -> bool, target: (Fields, Packet) -> Option<bool>)

  function ParentVerdict(f: Family, w: World, rules: seq<Fields>, chain: string, policy: PolicyChain, p: Packet)
    : Option<bool>
  {
    if rules == [] then None
    else
      var v := if !w.hits(rules[0], p) then None
               else if HasJump(rules[0], chain) then PolicyVerdict(f, policy, p)
               else w.target(rules[0], p);
      if v.Some? then v else ParentVerdict(f, w, rules[1..], chain, policy, p)
  }

  /** The kernel matches a port jump on the destination port. */
  ghost predicate ReadsPorts(w: World, chain: string, p: Packet) {
    forall port: nat ::
      w.hits(["-p", "tcp", "-m", "tcp", "--dport", FormatInt(port), "-j", chain], p) <==> p.tcpPort == Some(port)
  }

  lemma {:induction false} JumpsVerdict(show: Show, f: Family, w: World, chain: string, ports: seq<nat>,
                                        policy: PolicyChain, rest: seq<Fields>, p: Packet)
    requires ChainName(show, chain) && ReadsPorts(w, chain, p)
    ensures ParentVerdict(f, w, Jumps(chain, ports) + rest, chain, policy, p) ==
            if p.tcpPort.Some? && p.tcpPort.value in ports && PolicyVerdict(f, policy, p).Some? then
              PolicyVerdict(f, policy, p)
            else ParentVerdict(f, w, rest, chain, policy, p)
  {
    hide JumpRule, PolicyVerdict, ParentVerdict, Jumps, HasJump, ReadsPorts;
    JumpsOpen(chain, ports, rest);
    if ports != [] {
      var last, front := ports[|ports| - 1], ports[..|ports| - 1];
      JumpsVerdict(show, f, w, chain, front, policy, rest, p);
      FirstJump(show, f, w, chain, last, policy, Jumps(chain, front) + rest, p);
      assert forall x :: x in ports <==> x in front || x == last;
    }
  }

  lemma JumpsOpen(chain: string, ports: seq<nat>, rest: seq<Fields>)
    ensures ports == [] ==> Jumps(chain, ports) + rest == rest
    ensures ports != [] ==>
              Jumps(chain, ports) + rest
              == [JumpRule(chain, ports[|ports| - 1])] + (Jumps(chain, ports[..|ports| - 1]) + rest)
  {
    hide JumpRule;
  }

  lemma JumpRuleIs(chain: string, port: nat)
    ensures JumpRule(chain, port) == ["-p", "tcp", "-m", "tcp", "--dport", FormatInt(port), "-j", chain]
  {
  }

  lemma FirstJump(show: Show, f: Family, w: World, chain: string, port: nat, policy: PolicyChain, rest: seq<Fields>,
                  p: Packet)
    requires ChainName(show, chain) && ReadsPorts(w, chain, p)
    ensures ParentVerdict(f, w, [JumpRule(chain, port)] + rest, chain, policy, p) ==
            if p.tcpPort == Some(port) && PolicyVerdict(f, policy, p).Some? then PolicyVerdict(f, policy, p)
            else ParentVerdict(f, w, rest, chain, policy, p)
  {
    hide JumpRule, PolicyVerdict, HasJump;
    JumpIsRemovable(show, chain, port);
    JumpRuleIs(chain, port);
    assert w.hits(JumpRule(chain, port), p) <==> p.tcpPort == Some(port);
    assert ([JumpRule(chain, port)] + rest)[1..] == rest;
  }

  // ------------------------------------------------------------------
  // What linking leaves of a parent
  // ------------------------------------------------------------------

  /** Rules that jump elsewhere, or nowhere. */
  function Others(rules: seq<Fields>, chain: string): seq<Fields> {
    if rules == [] then []
    else if HasJump(rules[0], chain) then Others(rules[1..], chain)
    else [rules[0]] + Others(rules[1..], chain)
  }

  lemma {:induction false} OthersSplit(a: seq<Fields>, b: seq<Fields>, chain: string)
    ensures Others(a + b, chain) == Others(a, chain) + Others(b, chain)
  {
    hide HasJump;
    if a == [] {
      assert a + b == b;
    } else {
      assert (a + b)[1..] == a[1..] + b;
      OthersSplit(a[1..], b, chain);
    }
  }

  lemma {:induction false} JumpsAreNoOthers(show: Show, chain: string, ports: seq<nat>)
    requires ChainName(show, chain)
    ensures Others(Jumps(chain, ports), chain) == [] && |Jumps(chain, ports)| == |ports|
  {
    if ports != [] {
      hide JumpRule, HasJump;
      JumpIsRemovable(show, chain, ports[|ports| - 1]);
      JumpsAreNoOthers(show, chain, ports[..|ports| - 1]);
    }
  }

  lemma {:induction false} OthersDelete(rules: seq<Fields>, x: Fields, chain: string)
    requires HasJump(x, chain)
    ensures Others(DeleteFirst(rules, x), chain) == Others(rules, chain)
    ensures Others(WithoutBare(rules, x), chain) == Others(rules, chain)
  {
    hide HasJump;
    if rules != [] {
      OthersDelete(rules[1..], x, chain);
    }
  }

  lemma {:induction false} OthersDeleted(show: Show, rules: seq<Fields>, chain: string, k: nat)
    requires k <= |rules|
    ensures Others(Deleted(show, rules, chain, k), chain) == Others(rules, chain)
  {
    hide HasJump, ReadBack, DeleteFirst, Others;
    if k > 0 {
      OthersDeleted(show, rules, chain, k - 1);
      var back := ReadBack(show, rules[k - 1]);
      if HasJump(back, chain) {
        OthersDelete(Deleted(show, rules, chain, k - 1), back, chain);
      }
    }
  }

  lemma BareJumps(chain: string)
    ensures HasJump(BareJump(chain), chain)
  {
    assert BareJump(chain)[0] == "-j" && BareJump(chain)[0 + 1] == chain;
  }

  /** Deleting the jumps leaves the other rules alone, whatever the tool quotes. */
  lemma OthersStay(show: Show, rules: seq<Fields>, chain: string)
    ensures Others(Unlinked(show, rules, chain), chain) == Others(rules, chain)
  {
    hide HasJump, Deleted, WithoutBare, Others;
    OthersDeleted(show, rules, chain, |rules|);
    BareJumps(chain);
    OthersDelete(Deleted(show, rules, chain, |rules|), BareJump(chain), chain);
  }

  /** The port jumps, then what was there without removable jumps; the rules that do not jump to
      the chain are all there in their order. */
  ghost predicate Replaced(show: Show, was: seq<Fields>, now: seq<Fields>, chain: string, ports: seq<nat>) {
    && |now| >= |ports| && now[..|ports|] == Jumps(chain, ports)
    && Others(now[|ports|..], chain) == Others(was, chain)
    && (forall r :: r in now[|ports|..] ==> r in was && !Removable(show, r, chain))
  }

  lemma LinkedReplaces(show: Show, rules: seq<Fields>, chain: string, ports: seq<nat>)
    requires ChainName(show, chain) && Listable(show, rules)
    ensures Replaced(show, rules, Linked(show, rules, chain, ports), chain, ports)
  {
    hide Jumps, Unlinked, Others, Removable, Listable, Plain;
    JumpsAreNoOthers(show, chain, ports);
    OthersStay(show, rules, chain);
    UnlinkedIsPart(show, rules, chain);
    var now := Linked(show, rules, chain, ports);
    assert now[|ports|..] == Unlinked(show, rules, chain);
  }

  /** Linking once more replaces the same rules. */
  lemma ReplacedAgain(show: Show, was: seq<Fields>, now: seq<Fields>, chain: string, ports: seq<nat>)
    requires ChainName(show, chain) && Listable(show, now) && Replaced(show, was, now, chain, ports)
    ensures Replaced(show, was, Linked(show, now, chain, ports), chain, ports)
  {
    hide Jumps, Unlinked, Others, Removable, Listable, Plain, Linked, ChainName;
    LinkedReplaces(show, now, chain, ports);
    JumpsAreNoOthers(show, chain, ports);
    JumpsAreRemovable(show, chain, ports);
    assert now == Jumps(chain, ports) + now[|ports|..];
    OthersSplit(Jumps(chain, ports), now[|ports|..], chain);
    assert [] + Others(now[|ports|..], chain) == Others(now[|ports|..], chain);
    var again := Linked(show, now, chain, ports);
    forall r | r in again[|ports|..] ensures r in was && !Removable(show, r, chain) {
      assert r in now && r !in Jumps(chain, ports);
    }
  }

  lemma {:induction false} LinkedInReplaces(show: Show, parents: map<string, seq<Fields>>, names: seq<string>,
                                            chain: string, ports: seq<nat>, parent: string)
    requires ChainName(show, chain) && parent in parents && Listable(show, parents[parent])
    ensures var now := LinkedIn(show, parents, names, chain, ports)[parent];
            && Listable(show, now)
            && if parent in names then Replaced(show, parents[parent], now, chain, ports) else now == parents[parent]
  {
    hide Replaced, Listable, Linked, ChainName;
    if names != [] {
      var front, last := names[..|names| - 1], names[|names| - 1];
      assert names == front + [last];
      LinkedInReplaces(show, parents, front, chain, ports, parent);
      var now := LinkedIn(show, parents, front, chain, ports)[parent];
      if last == parent {
        LinkedIsListable(show, now, chain, ports);
        if parent in front {
          ReplacedAgain(show, parents[parent], now, chain, ports);
        } else {
          LinkedReplaces(show, now, chain, ports);
        }
      }
    }
  }

  /** On a safe parent the rest is exactly the rules that are no removable jumps. */
  lemma {:induction false} SafeLinkedIn(show: Show, parents: map<string, seq<Fields>>, names: seq<string>,
                                        chain: string, ports: seq<nat>, parent: string)
    requires ChainName(show, chain) && parent in parents && parent in names
    requires Listable(show, parents[parent]) && Safe(show, parents[parent], chain)
    ensures LinkedIn(show, parents, names, chain, ports)[parent]
            == Jumps(chain, ports) + NotJumping(show, parents[parent], chain)
  {
    hide Listable, Linked, ChainName, Safe, Jumps, NotJumping;
    var front, last := names[..|names| - 1], names[|names| - 1];
    assert names == front + [last];
    var was, now := parents[parent], LinkedIn(show, parents, front, chain, ports)[parent];
    SafeLinked(show, was, chain, ports);
    if parent in front {
      SafeLinkedIn(show, parents, front, chain, ports, parent);
    } else {
      LinkedInReplaces(show, parents, front, chain, ports, parent);
    }
  }

  lemma SafeLinked(show: Show, rules: seq<Fields>, chain: string, ports: seq<nat>)
    requires ChainName(show, chain) && Listable(show, rules) && Safe(show, rules, chain)
    ensures var now := Jumps(chain, ports) + NotJumping(show, rules, chain);
            Linked(show, rules, chain, ports) == now && Linked(show, now, chain, ports) == now
  {
    hide Listable, Safe, Jumps, NotJumping, Unlinked, Plain;
    DeletedExactlyWhen(show, rules, chain);
    var now := Jumps(chain, ports) + NotJumping(show, rules, chain);
    LinkedIsListable(show, rules, chain, ports);
    LinkedIsSafe(show, rules, chain, ports);
    DeletedExactlyWhen(show, now, chain);
    RestStays(show, rules, chain, ports);
  }

  lemma RestStays(show: Show, rules: seq<Fields>, chain: string, ports: seq<nat>)
    requires ChainName(show, chain)
    ensures NotJumping(show, Jumps(chain, ports) + NotJumping(show, rules, chain), chain)
            == NotJumping(show, rules, chain)
  {
    hide Jumps, NotJumping, Removable;
    JumpsAreRemovable(show, chain, ports);
    NotJumpingSplits(show, Jumps(chain, ports), NotJumping(show, rules, chain), chain);
    NotJumpingKeeps(show, rules, chain);
    NothingRemovable(show, NotJumping(show, rules, chain), chain);
    assert [] + NotJumping(show, rules, chain) == NotJumping(show, rules, chain);
  }

  lemma LinkedIsSafe(show: Show, rules: seq<Fields>, chain: string, ports: seq<nat>)
    requires ChainName(show, chain) && Listable(show, rules) && Safe(show, rules, chain)
    ensures Safe(show, Jumps(chain, ports) + NotJumping(show, rules, chain), chain)
  {
    hide Stored, Jumps, NotJumping, ReadBack, Quoted, Plain, Faithful, HasJump;
    JumpsAreRemovable(show, chain, ports);
    NotJumpingKeeps(show, rules, chain);
    var linked := Jumps(chain, ports) + NotJumping(show, rules, chain);
    forall r | r in linked && ReadBack(show, r) in linked && HasJump(ReadBack(show, r), chain)
      ensures Removable(show, ReadBack(show, r), chain)
    {
      PlainReadsBack(show, r);
      if r in Jumps(chain, ports) {
        assert Plain(show, r);
      }
    }
  }

  // ------------------------------------------------------------------
  // Verdicts
  // ------------------------------------------------------------------

  /** Main result: a TCP packet to a listed port meets the policy first, any other packet,
      and one the policy lets return, exactly the rules behind the port jumps. These are rules
      the parent had, among them all that do not jump to the chain, in their order; on a safe
      parent they are exactly those that were no removable jumps. */
  lemma SyncedVerdict(show: Show, f: Family, w: World, k: Kernel, policy: Policy, chain: string, ports: seq<nat>,
                      parent: string, p: Packet)
    requires ChainName(show, chain) && ReadsPorts(w, chain, p)
    requires parent in k.parents && parent in policy.parents && Listable(show, k.parents[parent])
    ensures var was, contents := k.parents[parent], PolicyOf(f, policy);
            var after := Synced(show, f, k, policy, chain, ports);
            && after.policy == Some(contents)
            && Replaced(show, was, after.parents[parent], chain, ports)
            && var rest := after.parents[parent][|ports|..];
            && ParentVerdict(f, w, after.parents[parent], chain, contents, p) ==
               (if p.tcpPort.Some? && p.tcpPort.value in ports && PolicyVerdict(f, contents, p).Some? then
                  PolicyVerdict(f, contents, p)
                else ParentVerdict(f, w, rest, chain, contents, p))
            && (Safe(show, was, chain) ==> rest == NotJumping(show, was, chain))
  {
    hide PolicyOf, PolicyVerdict, ParentVerdict, Jumps, LinkedIn, ChainName, Listable, Safe, Others, NotJumping;
    hide Removable, ReadsPorts;
    var was, now := k.parents[parent], LinkedIn(show, k.parents, policy.parents, chain, ports)[parent];
    LinkedInReplaces(show, k.parents, policy.parents, chain, ports, parent);
    JumpsAreNoOthers(show, chain, ports);
    assert now == Jumps(chain, ports) + now[|ports|..];
    JumpsVerdict(show, f, w, chain, ports, PolicyOf(f, policy), now[|ports|..], p);
    if Safe(show, was, chain) {
      SafeLinkedIn(show, k.parents, policy.parents, chain, ports, parent);
      assert (Jumps(chain, ports) + NotJumping(show, was, chain))[|ports|..] == NotJumping(show, was, chain);
    }
  }

  /** Rules that jump to the chain and do not match the packet change nothing for it. */
  lemma {:induction false} IdleJumps(f: Family, w: World, rules: seq<Fields>, chain: string, policy: PolicyChain,
                                     other: PolicyChain, p: Packet)
    requires forall r :: r in rules && HasJump(r, chain) ==> !w.hits(r, p)
    ensures ParentVerdict(f, w, rules, chain, policy, p) == ParentVerdict(f, w, Others(rules, chain), chain, other, p)
  {
    hide PolicyVerdict, HasJump;
    if rules != [] {
      IdleJumps(f, w, rules[1..], chain, policy, other, p);
      if !HasJump(rules[0], chain) {
        assert Others(rules, chain)[1..] == Others(rules[1..], chain);
      }
    }
  }

  /** A packet to a port that is not listed, and that no old jump caught, is treated as before. */
  lemma UnlistedAsBefore(show: Show, f: Family, w: World, k: Kernel, policy: Policy, chain: string, ports: seq<nat>,
                         parent: string, old_: PolicyChain, p: Packet)
    requires ChainName(show, chain) && ReadsPorts(w, chain, p)
    requires parent in k.parents && parent in policy.parents && Listable(show, k.parents[parent])
    requires p.tcpPort.None? || p.tcpPort.value !in ports
    requires forall r :: r in k.parents[parent] && HasJump(r, chain) ==> !w.hits(r, p)
    ensures ParentVerdict(f, w, Synced(show, f, k, policy, chain, ports).parents[parent], chain, PolicyOf(f, policy), p)
            == ParentVerdict(f, w, k.parents[parent], chain, old_, p)
  {
    hide PolicyVerdict, ParentVerdict, LinkedIn, PolicyOf, HasJump, Listable, ChainName, Removable, Safe;
    SyncedVerdict(show, f, w, k, policy, chain, ports, parent, p);
    var rest := Synced(show, f, k, policy, chain, ports).parents[parent][|ports|..];
    IdleJumps(f, w, k.parents[parent], chain, old_, old_, p);
    IdleJumps(f, w, rest, chain, PolicyOf(f, policy), old_, p);
  }

  // ------------------------------------------------------------------
  // Other rules, old jumps, second run
  // ------------------------------------------------------------------

  /** Rules that do not jump to the chain keep their order, in every parent chain. */
  lemma OthersKeepOrder(show: Show, f: Family, k: Kernel, policy: Policy, chain: string, ports: seq<nat>,
                        parent: string)
    requires ChainName(show, chain) && parent in k.parents && Listable(show, k.parents[parent])
    ensures Others(Synced(show, f, k, policy, chain, ports).parents[parent], chain) == Others(k.parents[parent], chain)
  {
    hide Others, Jumps, LinkedIn, PolicyOf, ChainName, Listable, Removable;
    var now := LinkedIn(show, k.parents, policy.parents, chain, ports)[parent];
    LinkedInReplaces(show, k.parents, policy.parents, chain, ports, parent);
    if parent in policy.parents {
      JumpsAreNoOthers(show, chain, ports);
      assert now == Jumps(chain, ports) + now[|ports|..];
      OthersSplit(Jumps(chain, ports), now[|ports|..], chain);
      assert [] + Others(now[|ports|..], chain) == Others(now[|ports|..], chain);
    }
  }

  ghost predicate OnlyPortJumps(rules: seq<Fields>, chain: string, ports: seq<nat>) {
    forall r :: r in rules && HasJump(r, chain) ==> exists i :: 0 <= i < |ports| && r == JumpRule(chain, ports[i])
  }

  /** Old jumps are all gone when none of them has a field that is listed in quotes: the quotes do
      not survive the way back into arguments, and the deletion fails. On safe parents they are gone
      exactly then. */
  lemma OldJumpsGone(show: Show, rules: seq<Fields>, chain: string, ports: seq<nat>)
    requires ChainName(show, chain) && Listable(show, rules)
    ensures (forall r :: r in rules && HasJump(r, chain) ==> Plain(show, r)) ==>
              OnlyPortJumps(Linked(show, rules, chain, ports), chain, ports)
    ensures Safe(show, rules, chain) ==>
              (OnlyPortJumps(Linked(show, rules, chain, ports), chain, ports)
               <==> forall r :: r in rules && HasJump(r, chain) ==> Plain(show, r))
  {
    hide HasJump, Plain, JumpRule, Listable, Unlinked, NotJumping, Safe;
    var jumps, rest := Jumps(chain, ports), Unlinked(show, rules, chain);
    UnlinkedIsPart(show, rules, chain);
    JumpsAreRemovable(show, chain, ports);
    forall r ensures r in jumps <==> exists i :: 0 <= i < |ports| && r == JumpRule(chain, ports[i]) {
      JumpsAre(chain, ports, r);
    }
    if forall r :: r in rules && HasJump(r, chain) ==> Plain(show, r) {
      forall r | r in Linked(show, rules, chain, ports) && HasJump(r, chain)
        ensures exists i :: 0 <= i < |ports| && r == JumpRule(chain, ports[i])
      {
        assert r in jumps || r in rest;
      }
    }
    if Safe(show, rules, chain) && OnlyPortJumps(Linked(show, rules, chain, ports), chain, ports) {
      DeletedExactlyWhen(show, rules, chain);
      NotJumpingKeeps(show, rules, chain);
      forall r | r in rules && HasJump(r, chain) ensures Plain(show, r) {
        assert Removable(show, r, chain) || (r in rest && r in Linked(show, rules, chain, ports));
      }
    }
  }

  // ------------------------------------------------------------------
  // Which policies are linked
  // ------------------------------------------------------------------

  lemma {:induction false} OfNone(f: Family, sources: seq<Address>)
    ensures Of(f, sources) != [] <==> exists a :: a in sources && a.Resolved? && a.family == f
  {
    if sources != [] {
      OfNone(f, sources[1..]);
      assert sources == [sources[0]] + sources[1..];
    }
  }

  /** Main result: a table is linked to its policy chain exactly when there are ports and the policy does
      something in that family: it accepts local addresses, drops by default, or lists a source of
      the family. Otherwise no jump is left for any port, and the chain goes unless a rule still
      refers to it. */
  lemma LinkedExactlyWhen(show: Show, f: Family, k: Kernel, policy: Policy, chain: string)
    ensures var after := Result(show, f, k, policy, chain);
            if && policy.ports != []
               && (policy.locals || policy.drop
                   || exists a :: a in policy.allow + policy.block && a.Resolved? && a.family == f)
            then
              && after.policy == Some(PolicyOf(f, policy))
              && after.parents == LinkedIn(show, k.parents, policy.parents, chain, PortsOf(policy))
            else
              && after.parents == LinkedIn(show, k.parents, policy.parents, chain, [])
              && (after.policy.Some? ==> k.policy.Some? && after.policy == Some(PolicyChain([], false))
                                         && Referred(after.parents, chain))
              && (k.policy.Some? && Referred(after.parents, chain) ==> after.policy.Some?)
  {
    hide LinkedIn, PolicyOf, PortsOf, Referred;
    OfNone(f, policy.allow);
    OfNone(f, policy.block);
    assert forall a :: a in policy.allow + policy.block <==> a in policy.allow || a in policy.block;
  }

  // ------------------------------------------------------------------
  // A second run
  // ------------------------------------------------------------------

  /** A linked parent stays as it is when it is linked again, if and only if it is safe. */
  lemma LinkedAgain(show: Show, rules: seq<Fields>, chain: string, ports: seq<nat>)
    requires ChainName(show, chain) && Listable(show, rules)
    requires |rules| >= |ports| && rules[..|ports|] == Jumps(chain, ports)
    requires forall r :: r in rules[|ports|..] ==> !Removable(show, r, chain)
    ensures Linked(show, rules, chain, ports) == rules <==> Safe(show, rules, chain)
  {
    hide Listable, Safe, Jumps, NotJumping, Unlinked, Plain, Removable;
    var rest := rules[|ports|..];
    assert rules == Jumps(chain, ports) + rest;
    JumpsAreNoOthers(show, chain, ports);
    JumpsAreRemovable(show, chain, ports);
    NotJumpingSplits(show, Jumps(chain, ports), rest, chain);
    NothingRemovable(show, rest, chain);
    assert [] + rest == rest;
    DeletedExactlyWhen(show, rules, chain);
    assert Linked(show, rules, chain, ports)[|ports|..] == Unlinked(show, rules, chain);
  }

  /** Linking never adds a rule that is no removable jump. */
  lemma LinkedCounts(show: Show, rules: seq<Fields>, chain: string, ports: seq<nat>, x: Fields)
    requires ChainName(show, chain) && Listable(show, rules) && !Removable(show, x, chain)
    ensures multiset(Linked(show, rules, chain, ports))[x] == multiset(Unlinked(show, rules, chain))[x]
    ensures multiset(Linked(show, rules, chain, ports))[x] <= multiset(rules)[x]
  {
    hide Listable, Jumps, Unlinked, Plain, Removable;
    JumpsAreRemovable(show, chain, ports);
    UnlinkedIsPart(show, rules, chain);
    assert x !in Jumps(chain, ports);
  }

  /** Linking a parent that is not safe loses a rule that is no removable jump. */
  lemma UnsafeLoses(show: Show, rules: seq<Fields>, chain: string, ports: seq<nat>) returns (x: Fields)
    requires ChainName(show, chain) && Listable(show, rules) && !Safe(show, rules, chain)
    ensures !Removable(show, x, chain) && multiset(Linked(show, rules, chain, ports))[x] < multiset(rules)[x]
  {
    hide HasJump, ReadBack, Listable, ChainName, Deleted, WithoutBare, Removable, Linked;
    var r :| r in rules && ReadBack(show, r) in rules && HasJump(ReadBack(show, r), chain)
      && !Removable(show, ReadBack(show, r), chain);
    x := ReadBack(show, r);
    var i :| 0 <= i < |rules| && rules[i] == r;
    UnsafeDeletes(show, rules, chain, |rules|, i);
    WithoutBareIsPart(Deleted(show, rules, chain, |rules|), BareJump(chain));
    LinkedCounts(show, rules, chain, ports, x);
  }

  lemma {:induction false} LinkedInCounts(show: Show, parents: map<string, seq<Fields>>, names: seq<string>,
                                          chain: string, ports: seq<nat>, parent: string, x: Fields)
    requires ChainName(show, chain) && parent in parents && Listable(show, parents[parent])
    requires !Removable(show, x, chain)
    ensures var was, now := parents[parent], LinkedIn(show, parents, names, chain, ports)[parent];
            && multiset(now)[x] <= multiset(was)[x]
            && (parent in names && multiset(Linked(show, was, chain, ports))[x] < multiset(was)[x] ==>
                  multiset(now)[x] < multiset(was)[x])
  {
    hide Listable, Linked, ChainName, Removable, Replaced;
    if names != [] {
      var front, last := names[..|names| - 1], names[|names| - 1];
      assert names == front + [last];
      LinkedInCounts(show, parents, front, chain, ports, parent, x);
      LinkedInReplaces(show, parents, front, chain, ports, parent);
      LinkedCounts(show, LinkedIn(show, parents, front, chain, ports)[parent], chain, ports, x);
    }
  }

  lemma {:induction false} LinkedInFixed(show: Show, parents: map<string, seq<Fields>>, names: seq<string>,
                                         chain: string, ports: seq<nat>)
    requires forall p :: p in names && p in parents ==> Linked(show, parents[p], chain, ports) == parents[p]
    ensures LinkedIn(show, parents, names, chain, ports) == parents
  {
    hide Linked;
    if names != [] {
      assert names == names[..|names| - 1] + [names[|names| - 1]];
      LinkedInFixed(show, parents, names[..|names| - 1], chain, ports);
    }
  }

  /** Linking all parents again changes nothing, if and only if all that are linked are safe. */
  lemma LinkedInTwice(show: Show, parents: map<string, seq<Fields>>, names: seq<string>, chain: string, ports: seq<nat>)
    requires ChainName(show, chain) && forall p :: p in parents ==> Listable(show, parents[p])
    ensures var once := LinkedIn(show, parents, names, chain, ports);
            LinkedIn(show, once, names, chain, ports) == once
            <==> forall p :: p in once && p in names ==> Safe(show, once[p], chain)
  {
    hide Listable, Linked, LinkedIn, ChainName, Safe, Jumps, Others, Removable;
    var once := LinkedIn(show, parents, names, chain, ports);
    forall p | p in once && p in names
      ensures Listable(show, once[p])
      ensures Linked(show, once[p], chain, ports) == once[p] <==> Safe(show, once[p], chain)
    {
      LinkedInReplaces(show, parents, names, chain, ports, p);
      LinkedAgain(show, once[p], chain, ports);
    }
    if forall p :: p in once && p in names ==> Safe(show, once[p], chain) {
      LinkedInFixed(show, once, names, chain, ports);
    } else {
      var p :| p in once && p in names && !Safe(show, once[p], chain);
      var x := UnsafeLoses(show, once[p], chain, ports);
      LinkedInCounts(show, once, names, chain, ports, p, x);
    }
  }

  /** Main result: a second synchronisation of a table changes nothing, if and only if every linked
      parent that the first one left is safe. */
  lemma SecondSyncChangesNothing(show: Show, f: Family, k: Kernel, policy: Policy, chain: string)
    requires ChainName(show, chain) && forall p :: p in k.parents ==> Listable(show, k.parents[p])
    ensures var once := Result(show, f, k, policy, chain);
            Result(show, f, once, policy, chain) == once
            <==> forall p :: p in once.parents && p in policy.parents ==> Safe(show, once.parents[p], chain)
  {
    hide Active, PolicyOf, Referred, PortsOf, ChainName, LinkedIn, Listable, Safe;
    LinkedInTwice(show, k.parents, policy.parents, chain, []);
    LinkedInTwice(show, k.parents, policy.parents, chain, PortsOf(policy));
  }

  /** On safe parents it changes nothing. */
  lemma SafeSyncedTwice(show: Show, f: Family, k: Kernel, policy: Policy, chain: string)
    requires ChainName(show, chain) && forall p :: p in k.parents ==> Listable(show, k.parents[p])
    requires forall p :: p in k.parents && p in policy.parents ==> Safe(show, k.parents[p], chain)
    ensures Result(show, f, Result(show, f, k, policy, chain), policy, chain) == Result(show, f, k, policy, chain)
  {
    hide Active, PolicyOf, Referred, PortsOf, ChainName, LinkedIn, Listable, Safe, NotJumping, Jumps;
    var once := Result(show, f, k, policy, chain);
    var ports := if policy.ports == [] || !Active(f, policy) then [] else PortsOf(policy);
    forall p | p in once.parents && p in policy.parents
      ensures Safe(show, once.parents[p], chain)
    {
      SafeLinkedIn(show, k.parents, policy.parents, chain, ports, p);
      LinkedIsSafe(show, k.parents[p], chain, ports);
    }
    SecondSyncChangesNothing(show, f, k, policy, chain);
  }
}
