/** What a chain that has just been set up accepts (pkg/iptables/manager.go:87-98, 761-865). */
module FirewallSetUp {
  import opened Bytes
  import opened FirewallChain

  // ------------------------------------------------------------------
  // Prefixes as ranges of addresses
  // ------------------------------------------------------------------

  lemma Pow2By4(n: nat)
    ensures Pow2(n + 4) == 0x10 * Pow2(n)
  {
    assert Pow2(n + 4) == 2 * Pow2(n + 3) && Pow2(n + 3) == 2 * Pow2(n + 2);
    assert Pow2(n + 2) == 2 * Pow2(n + 1) && Pow2(n + 1) == 2 * Pow2(n);
  }

  lemma Pow2By16(n: nat)
    ensures Pow2(n + 16) == 0x1_0000 * Pow2(n)
  {
    hide Pow2;
    Pow2By4(n);
    Pow2By4(n + 4);
    Pow2By4(n + 8);
    Pow2By4(n + 12);
  }

  lemma Pow2By112(n: nat)
    ensures Pow2(n + 112) == 0x1_0000_0000_0000_0000_0000_0000_0000 * Pow2(n)
  {
    hide Pow2;
    Pow2By16(n);
    Pow2By16(n + 16);
    Pow2By16(n + 32);
    Pow2By16(n + 48);
    Pow2By16(n + 64);
    Pow2By16(n + 80);
    Pow2By16(n + 96);
  }

  lemma Pow2Values()
    ensures Pow2(16) == 0x1_0000 && Pow2(20) == 0x10_0000 && Pow2(24) == 0x100_0000
    ensures Pow2(118) == 0x40_0000_0000_0000_0000_0000_0000_0000
    ensures Pow2(121) == 0x200_0000_0000_0000_0000_0000_0000_0000
  {
    assert Pow2(4) == 0x10 && Pow2(6) == 0x40 && Pow2(8) == 0x100 && Pow2(9) == 0x200 && Pow2(0) == 1;
    hide Pow2;
    Pow2By16(0);
    Pow2By16(4);
    Pow2By16(8);
    Pow2By112(6);
    Pow2By112(9);
  }

  /** A prefix covers the addresses that start with its bits. */
  lemma PrefixIsRange(f: Family, src: Source, address: nat)
    requires src.bits <= Width(f)
    ensures var size := Pow2(Width(f) - src.bits);
            InSource(f, src, address) <==> src.network * size <= address < (src.network + 1) * size
  {
    hide Pow2;
    DivisionIsRange(address, Pow2(Width(f) - src.bits), src.network);
  }

  lemma DivisionIsRange(a: nat, d: nat, q: nat)
    requires d >= 1
    ensures a / d == q <==> q * d <= a < (q + 1) * d
  {
    var k := a / d;
    assert a == k * d + a % d && (k + 1) * d == k * d + d;
    if k < q {
      Grows(k + 1, q, d);
    } else if k > q {
      Grows(q + 1, k, d);
    }
  }

  lemma Grows(a: nat, b: nat, d: nat)
    requires a <= b
    ensures a * d <= b * d
  {
    assert b * d == a * d + (b - a) * d;
  }

  // ------------------------------------------------------------------
  // Verdicts of the base rules
  // ------------------------------------------------------------------

  lemma {:induction false} AcceptVerdict(f: Family, sources: seq<Source>, p: Packet)
    ensures Verdict(f, AcceptFrom(sources), p)
            == if exists i :: 0 <= i < |sources| && InSource(f, sources[i], p.address) then Some(true) else None
  {
    hide InSource;
    if sources != [] {
      AcceptVerdict(f, sources[1..], p);
      assert AcceptFrom(sources)[1..] == AcceptFrom(sources[1..]);
      if i :| 0 <= i < |sources[1..]| && InSource(f, sources[1..][i], p.address) {
        assert InSource(f, sources[i + 1], p.address);
      }
      if i :| 0 <= i < |sources| && InSource(f, sources[i], p.address) {
        assert i > 0 ==> InSource(f, sources[1..][i - 1], p.address);
      }
    }
  }

  predicate ToPort(p: Packet, ports: seq<nat>) {
    (p.tcpPort.Some? && p.tcpPort.value in ports) || (p.udpPort.Some? && p.udpPort.value in ports)
  }

  lemma {:induction false} ExemptVerdict(f: Family, ports: seq<nat>, p: Packet)
    ensures Verdict(f, ExemptRules(ports), p) == if ToPort(p, ports) then Some(true) else None
    decreases |ports|
  {
    hide ExemptRules, Verdict;
    if ports == [] {
      NoExempt(ports);
      assert Verdict(f, [], p) == None by {
        NoVerdict(f, p);
      }
    } else {
      var chunk := if |ports| <= CHUNK then ports else ports[..CHUNK];
      var rest := ports[|chunk|..];
      ExemptStep(ports);
      ExemptVerdict(f, rest, p);
      assert ports == chunk + rest;
      var tcp, udp := Rule(Ports(false, chunk), true), Rule(Ports(true, chunk), true);
      VerdictSplits(f, [tcp, udp], ExemptRules(rest), p);
      VerdictSplits(f, [tcp], [udp], p);
      assert [tcp] + [udp] == [tcp, udp];
      OneVerdict(f, tcp, p);
      OneVerdict(f, udp, p);
    }
  }

  lemma NoVerdict(f: Family, p: Packet)
    ensures Verdict(f, [], p) == None
  {
  }

  lemma OneVerdict(f: Family, r: Rule, p: Packet)
    ensures Verdict(f, [r], p) == if Matches(f, r.match_, p) then Some(r.accept) else None
  {
    hide Matches;
  }

  /** The verdict of a chain just set up, with the prefixes it accepts as a list. */
  lemma SetUpSplits(f: Family, exempt: seq<nat>, t: Table, support: Support, p: Packet)
    requires support != Fails
    ensures Verdict(f, Step(f, exempt, t, Flush(support)).chain, p)
            == Some(|| p.loopback
                    || (p.established && support != HasNeither)
                    || (exists i :: 0 <= i < |LocalSources(f)| && InSource(f, LocalSources(f)[i], p.address))
                    || p.icmp
                    || ToPort(p, exempt))
  {
    hide LocalSources, InSource, AcceptFrom, ExemptRules, Verdict;
    var a, b, c := [Rule(Loopback, true)], EstablishedRules(support), AcceptFrom(LocalSources(f));
    var d, e := [Rule(Icmp, true)], ExemptRules(exempt);
    VerdictSplits(f, a + b + c + d + e, [DROP_ALL], p);
    VerdictSplits(f, a + b + c + d, e, p);
    VerdictSplits(f, a + b + c, d, p);
    VerdictSplits(f, a + b, c, p);
    VerdictSplits(f, a, b, p);
    OneVerdict(f, a[0], p);
    EstablishedVerdict(f, support, p);
    AcceptVerdict(f, LocalSources(f), p);
    OneVerdict(f, d[0], p);
    ExemptVerdict(f, exempt, p);
    OneVerdict(f, DROP_ALL, p);
  }

  lemma EstablishedVerdict(f: Family, support: Support, p: Packet)
    requires support != Fails
    ensures Verdict(f, EstablishedRules(support), p)
            == if p.established && support != HasNeither then Some(true) else None
  {
    if support != HasNeither {
      OneVerdict(f, EstablishedRules(support)[0], p);
    }
  }

  // ------------------------------------------------------------------
  // After a set-up
  // ------------------------------------------------------------------

  lemma LocalIPv4(address: nat)
    ensures (exists i :: 0 <= i < |LocalSources(IPv4)| && InSource(IPv4, LocalSources(IPv4)[i], address))
            <==>
            || 0x0a00_0000 <= address <= 0x0aff_ffff
            || 0xac10_0000 <= address <= 0xac1f_ffff
            || 0xc0a8_0000 <= address <= 0xc0a8_ffff
            || 0xa9fe_0000 <= address <= 0xa9fe_ffff
  {
    hide InSource, Pow2;
    var ls := LocalSources(IPv4);
    Pow2Values();
    PrefixIsRange(IPv4, ls[0], address);
    PrefixIsRange(IPv4, ls[1], address);
    PrefixIsRange(IPv4, ls[2], address);
    PrefixIsRange(IPv4, ls[3], address);
    PrefixIsRange(IPv4, ls[4], address);
  }

  lemma LocalIPv6(address: nat)
    ensures (exists i :: 0 <= i < |LocalSources(IPv6)| && InSource(IPv6, LocalSources(IPv6)[i], address))
            <==>
            || 0xfc00_0000_0000_0000_0000_0000_0000_0000 <= address <= 0xfdff_ffff_ffff_ffff_ffff_ffff_ffff_ffff
            || 0xfe80_0000_0000_0000_0000_0000_0000_0000 <= address <= 0xfebf_ffff_ffff_ffff_ffff_ffff_ffff_ffff
  {
    hide InSource, Pow2;
    var ls := LocalSources(IPv6);
    Pow2Values();
    PrefixIsRange(IPv6, ls[0], address);
    PrefixIsRange(IPv6, ls[1], address);
  }

  /** Main result: right after a set-up an IPv4 packet is accepted if and only if it comes in over
      loopback, belongs to a known connection when a match for that is available, comes from
      10.0.0.0/8, 172.16.0.0/12, 192.168.0.0/16 or 169.254.0.0/16, is ICMP, or goes to an exempt
      TCP or UDP port; any other one is dropped. */
  lemma SetUpVerdictIPv4(exempt: seq<nat>, t: Table, support: Support, p: Packet)
    requires support != Fails
    ensures Verdict(IPv4, Step(IPv4, exempt, t, Flush(support)).chain, p)
            == Some(|| p.loopback
                    || (p.established && (support == HasState || support == HasConntrack))
                    || 0x0a00_0000 <= p.address <= 0x0aff_ffff
                    || 0xac10_0000 <= p.address <= 0xac1f_ffff
                    || 0xc0a8_0000 <= p.address <= 0xc0a8_ffff
                    || 0xa9fe_0000 <= p.address <= 0xa9fe_ffff
                    || p.icmp
                    || (p.tcpPort.Some? && p.tcpPort.value in exempt)
                    || (p.udpPort.Some? && p.udpPort.value in exempt))
  {
    hide Step, Verdict, LocalSources, InSource;
    SetUpSplits(IPv4, exempt, t, support, p);
    LocalIPv4(p.address);
  }

  /** Main result: the same for IPv6, with fc00::/7 and fe80::/10. */
  lemma SetUpVerdictIPv6(exempt: seq<nat>, t: Table, support: Support, p: Packet)
    requires support != Fails
    ensures Verdict(IPv6, Step(IPv6, exempt, t, Flush(support)).chain, p)
            == Some(|| p.loopback
                    || (p.established && (support == HasState || support == HasConntrack))
                    || 0xfc00_0000_0000_0000_0000_0000_0000_0000 <= p.address
                       <= 0xfdff_ffff_ffff_ffff_ffff_ffff_ffff_ffff
                    || 0xfe80_0000_0000_0000_0000_0000_0000_0000 <= p.address
                       <= 0xfebf_ffff_ffff_ffff_ffff_ffff_ffff_ffff
                    || p.icmp
                    || (p.tcpPort.Some? && p.tcpPort.value in exempt)
                    || (p.udpPort.Some? && p.udpPort.value in exempt))
  {
    hide Step, Verdict, LocalSources, InSource;
    SetUpSplits(IPv6, exempt, t, support, p);
    LocalIPv6(p.address);
  }
  // ------------------------------------------------------------------
  // After a built-in prefix was taken back
  // ------------------------------------------------------------------

  /** No rule in front of `r` drops. */
  ghost predicate Reachable(chain: seq<Rule>, r: Rule) {
    exists k :: 0 <= k < |chain| && chain[k] == r && forall i :: 0 <= i < k ==> chain[i].accept
  }

  lemma {:induction false} ReachedDecides(f: Family, chain: seq<Rule>, r: Rule, p: Packet)
    requires Reachable(chain, r) && r.accept && Matches(f, r.match_, p)
    ensures Verdict(f, chain, p) == Some(true)
  {
    hide Matches;
    var k :| 0 <= k < |chain| && chain[k] == r && forall i :: 0 <= i < k ==> chain[i].accept;
    if k > 0 {
      assert chain[1..][k - 1] == r;
      ReachedDecides(f, chain[1..], r, p);
    }
  }

  lemma {:induction false} DeleteKeepsReachable(chain: seq<Rule>, r: Rule, x: Rule)
    requires Reachable(chain, r) && r != x
    ensures Reachable(DeleteOne(chain, x), r)
  {
    var k :| 0 <= k < |chain| && chain[k] == r && forall i :: 0 <= i < k ==> chain[i].accept;
    if k > 0 {
      var rest := chain[1..];
      assert rest[k - 1] == r && forall i :: 0 <= i < k - 1 ==> rest[i].accept;
      if chain[0] != x {
        DeleteKeepsReachable(rest, r, x);
        var less := DeleteOne(rest, x);
        var j :| 0 <= j < |less| && less[j] == r && forall i :: 0 <= i < j ==> less[i].accept;
        var all := [chain[0]] + less;
        assert all[j + 1] == r && forall i :: 0 <= i < j + 1 ==> all[i].accept;
      }
    } else {
      assert DeleteOne(chain, x)[0] == r;
    }
  }

  /** 172.17.0.0/16 has a rule of its own: it stays accepted when any other prefix is taken back,
      also 172.16.0.0/12, in which it lies. */
  lemma ContainerRangeStays(exempt: seq<nat>, t: Table, support: Support, src: Source, p: Packet)
    requires support != Fails && src != Source(0xac11, 16) && 0xac11_0000 <= p.address <= 0xac11_ffff
    ensures Verdict(IPv4, Step(IPv4, exempt, Step(IPv4, exempt, t, Flush(support)), Remove(src)).chain, p) == Some(true)
  {
    hide Verdict, InSource, Pow2, Reachable;
    var own, r := Source(0xac11, 16), Rule(From(Source(0xac11, 16)), true);
    var chain := BaseRules(IPv4, exempt, support) + [DROP_ALL];
    Pow2Values();
    PrefixIsRange(IPv4, own, p.address);
    OwnRule(exempt, support);
    DeleteKeepsReachable(chain, r, Rule(SourceMatch(src), true));
    DeleteKeepsReachable(DeleteOne(chain, Rule(SourceMatch(src), true)), r, Rule(SourceMatch(src), false));
    ReachedDecides(IPv4, ClearIP(chain, src), r, p);
  }

  lemma OwnRule(exempt: seq<nat>, support: Support)
    ensures Reachable(BaseRules(IPv4, exempt, support) + [DROP_ALL], Rule(From(Source(0xac11, 16)), true))
  {
    hide ExemptRules;
    var front := [Rule(Loopback, true)] + EstablishedRules(support);
    var sources := AcceptFrom(LocalSources(IPv4));
    var chain := BaseRules(IPv4, exempt, support) + [DROP_ALL];
    assert chain[|front| + 4] == sources[4];
    assert forall i :: 0 <= i < |front| ==> chain[i] == front[i];
    assert forall i :: 0 <= i < 5 ==> chain[|front| + i] == sources[i];
  }
}
