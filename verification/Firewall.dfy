/** The ordered iptables chains and the rules the program keeps in them: NAT rules for an
    interface and the four tagged rules of a port forward. Chains are sequences, -C looks
    for an equal rule, -A appends, -I prepends and -D drops the first equal rule. */
module Firewall {
  import opened Text
  import opened Ipv4
  import opened Models

  // --- Rules ---

  datatype Chain = Prerouting | Postrouting | Forward

  datatype Target = Accept | Masquerade | Dnat(ip: Address, port: int)

  /** The match options and target of one rule; None is an option not given. */
  datatype Rule = Rule(
    chain: Chain,
    inIface: Option<string>,
    outIface: Option<string>,
    source: Option<Cidr>,
    proto: Option<Proto>,
    dest: Option<Address>,
    dport: Option<int>,
    established: bool,
    target: Target,
    comment: string)

  function NatRules(subnet: Cidr, device: string, egress: string): (rs: seq<Rule>)
    ensures |rs| == 4
  {
    [Rule(Postrouting, None, Some(egress), Some(subnet), None, None, None, false, Masquerade, ""),
     Rule(Forward, Some(device), Some(egress), None, None, None, None, false, Accept, ""),
     Rule(Forward, Some(egress), Some(device), None, None, None, None, true, Accept, ""),
     Rule(Forward, Some(device), Some(device), None, None, None, None, false, Accept, "")]
  }

  function PfComment(id: nat): string {
    "vpn-manager-pf-" + Decimal(id)
  }

  function PfRules(id: nat, pf: PortForward, device: string): (rs: seq<Rule>)
    ensures |rs| == 4
  {
    var c := PfComment(id);
    [Rule(Prerouting, Some(pf.egress), None, None, Some(pf.proto), None, Some(pf.publicPort), false,
          Dnat(pf.targetIp, pf.targetPort), c),
     Rule(Forward, Some(pf.egress), Some(device), None, Some(pf.proto), Some(pf.targetIp), Some(pf.targetPort), false,
          Accept, c),
     Rule(Forward, Some(device), Some(pf.egress), None, None, None, None, true, Accept, c),
     Rule(Postrouting, None, Some(device), None, Some(pf.proto), Some(pf.targetIp), Some(pf.targetPort), false,
          Masquerade, c)]
  }

  predicate HasTag(r: Rule, id: nat) {
    r.comment == PfComment(id)
  }

  ghost predicate Tagged(r: Rule) {
    exists id: nat :: HasTag(r, id)
  }

  lemma TagUnique(r: Rule, i: nat, j: nat)
    requires HasTag(r, i) && HasTag(r, j)
    ensures i == j
  {
    var prefix := "vpn-manager-pf-";
    assert PfComment(i)[|prefix|..] == Decimal(i);
    assert PfComment(j)[|prefix|..] == Decimal(j);
    DecimalInjective(i, j);
  }

  lemma PfRulesTagged(id: nat, pf: PortForward, device: string)
    ensures forall r :: r in PfRules(id, pf, device) ==> HasTag(r, id)
  {
  }

  lemma NatRulesUntagged(subnet: Cidr, device: string, egress: string)
    ensures forall r :: r in NatRules(subnet, device, egress) ==> !Tagged(r)
  {
    forall id: nat
      ensures PfComment(id) != ""
    {
    }
  }

  /** Two interfaces' rules are disjoint exactly when the devices differ and not both
      subnet and egress coincide: the MASQUERADE rule does not mention the device. */
  lemma NatRulesDisjointIff(s1: Cidr, d1: string, e1: string, s2: Cidr, d2: string, e2: string)
    ensures (forall r :: !(r in NatRules(s1, d1, e1) && r in NatRules(s2, d2, e2)))
            <==> d1 != d2 && (s1 != s2 || e1 != e2)
  {
    var a, b := NatRules(s1, d1, e1), NatRules(s2, d2, e2);
    if d1 == d2 {
      assert a[3] == b[3] && a[3] in a && b[3] in b;
    }
    if s1 == s2 && e1 == e2 {
      assert a[0] == b[0] && a[0] in a && b[0] in b;
    }
  }

  // --- Chains ---

  datatype Chains = Chains(prerouting: seq<Rule>, postrouting: seq<Rule>, forward: seq<Rule>) {
    function Get(c: Chain): seq<Rule> {
      match c
      case Prerouting => prerouting
      case Postrouting => postrouting
      case Forward => forward
    }

    function Set(c: Chain, rules: seq<Rule>): (r: Chains)
      ensures r.Get(c) == rules
      ensures forall d: Chain :: d != c ==> r.Get(d) == Get(d)
    {
      match c
      case Prerouting => this.(prerouting := rules)
      case Postrouting => this.(postrouting := rules)
      case Forward => this.(forward := rules)
    }
  }

  function Count(ch: Chains, r: Rule): nat {
    multiset(ch.Get(r.chain))[r]
  }

  predicate Has(ch: Chains, r: Rule) {
    r in ch.Get(r.chain)
  }

  lemma HasIffCounted(ch: Chains, r: Rule)
    ensures Has(ch, r) <==> Count(ch, r) > 0
  {
    var s := ch.Get(r.chain);
    assert r in s <==> r in multiset(s);
  }

  function RemoveFirst(s: seq<Rule>, r: Rule): seq<Rule> {
    if s == [] then [] else if s[0] == r then s[1..] else [s[0]] + RemoveFirst(s[1..], r)
  }

  /** Port-forward rules go to the top of FORWARD, everything else to the end. */
  predicate GoesOnTop(r: Rule, front: bool) {
    front && r.chain == Forward
  }

  /** ensureRule and ensureRuleInsert. */
  function Installed(ch: Chains, r: Rule, front: bool): Chains {
    if Has(ch, r) then ch
    else if GoesOnTop(r, front) then ch.Set(r.chain, [r] + ch.Get(r.chain))
    else ch.Set(r.chain, ch.Get(r.chain) + [r])
  }

  /** deleteRule. */
  function Dropped(ch: Chains, r: Rule): Chains {
    ch.Set(r.chain, RemoveFirst(ch.Get(r.chain), r))
  }

  function InstallAll(ch: Chains, rs: seq<Rule>, front: bool): Chains {
    if rs == [] then ch
    else Installed(InstallAll(ch, rs[..|rs| - 1], front), rs[|rs| - 1], front)
  }

  function DropAll(ch: Chains, rs: seq<Rule>): Chains {
    if rs == [] then ch
    else Dropped(DropAll(ch, rs[..|rs| - 1]), rs[|rs| - 1])
  }

  // --- What installing and dropping do to the number of copies of each rule ---

  lemma CountInstalled(ch: Chains, r: Rule, front: bool, x: Rule)
    ensures Count(Installed(ch, r, front), x) == if x == r && Count(ch, r) == 0 then 1 else Count(ch, x)
  {
    HasIffCounted(ch, r);
    var s := ch.Get(r.chain);
    assert multiset([r] + s) == multiset{r} + multiset(s);
    assert multiset(s + [r]) == multiset(s) + multiset{r};
  }

  lemma {:induction false} MultisetRemoveFirst(s: seq<Rule>, r: Rule)
    ensures multiset(RemoveFirst(s, r)) == multiset(s) - multiset{r}
  {
    if s != [] {
      assert s == [s[0]] + s[1..];
      if s[0] != r {
        MultisetRemoveFirst(s[1..], r);
      }
    }
  }

  lemma CountDropped(ch: Chains, r: Rule, x: Rule)
    ensures Count(Dropped(ch, r), x) == if x == r && Count(ch, r) > 0 then Count(ch, r) - 1 else Count(ch, x)
  {
    MultisetRemoveFirst(ch.Get(r.chain), r);
  }

  lemma {:induction false} CountInstallAll(ch: Chains, rs: seq<Rule>, front: bool, x: Rule)
    ensures Count(InstallAll(ch, rs, front), x) == if x in rs && Count(ch, x) == 0 then 1 else Count(ch, x)
  {
    if rs != [] {
      var n := |rs| - 1;
      assert x in rs <==> x in rs[..n] || x == rs[n];
      CountInstallAll(ch, rs[..n], front, x);
      CountInstallAll(ch, rs[..n], front, rs[n]);
      CountInstalled(InstallAll(ch, rs[..n], front), rs[n], front, x);
    }
  }

  lemma {:induction false} CountDropAll(ch: Chains, rs: seq<Rule>, x: Rule)
    ensures Count(DropAll(ch, rs), x) <= Count(ch, x)
    ensures x !in rs ==> Count(DropAll(ch, rs), x) == Count(ch, x)
    ensures x in rs && Count(ch, x) <= 1 ==> Count(DropAll(ch, rs), x) == 0
  {
    if rs != [] {
      var n := |rs| - 1;
      assert x in rs <==> x in rs[..n] || x == rs[n];
      CountDropAll(ch, rs[..n], x);
      CountDropped(DropAll(ch, rs[..n]), rs[n], x);
    }
  }

  // --- Managed rules and forwarding ---

  /** More copies of the rule than the other programs have; none of theirs carries a tag. */
  ghost predicate Excess(ch: Chains, base: Chains, r: Rule) {
    Count(ch, r) > (if Tagged(r) then 0 else Count(base, r))
  }

  ghost predicate NothingManaged(ch: Chains, base: Chains) {
    forall r :: !Excess(ch, base, r)
  }

  /** Packets are forwarded, or there is no managed rule that would let them through. */
  ghost predicate Routed(forwarding: bool, ch: Chains, base: Chains) {
    forwarding || NothingManaged(ch, base)
  }

  lemma RoutedAfterDrops(forwarding: bool, ch: Chains, rs: seq<Rule>, base: Chains)
    requires Routed(forwarding, ch, base)
    ensures Routed(forwarding, DropAll(ch, rs), base)
  {
    if !forwarding {
      forall r
        ensures !Excess(DropAll(ch, rs), base, r)
      {
        CountDropAll(ch, rs, r);
        assert !Excess(ch, base, r);
      }
    }
  }

  // --- Order ---

  function Without(s: seq<Rule>, rs: seq<Rule>): seq<Rule> {
    if s == [] then []
    else if s[0] in rs then Without(s[1..], rs)
    else [s[0]] + Without(s[1..], rs)
  }

  lemma {:induction false} WithoutConcat(a: seq<Rule>, b: seq<Rule>, rs: seq<Rule>)
    ensures Without(a + b, rs) == Without(a, rs) + Without(b, rs)
  {
    if a == [] {
      assert a + b == b;
    } else {
      assert (a + b)[1..] == a[1..] + b;
      WithoutConcat(a[1..], b, rs);
    }
  }

  lemma {:induction false} WithoutNone(s: seq<Rule>, rs: seq<Rule>)
    requires forall r :: r in rs ==> r !in s
    ensures Without(s, rs) == s
  {
    if s != [] {
      WithoutNone(s[1..], rs);
    }
  }

  lemma RemoveFirstCons(x: Rule, s: seq<Rule>, r: Rule)
    ensures RemoveFirst([x] + s, r) == if x == r then s else [x] + RemoveFirst(s, r)
  {
    assert ([x] + s)[1..] == s;
  }

  lemma {:induction false} RemoveFirstAbsent(s: seq<Rule>, rs: seq<Rule>, r: Rule)
    requires r !in s
    ensures RemoveFirst(Without(s, rs), r) == Without(s, rs) == Without(s, rs + [r])
  {
    if s != [] {
      RemoveFirstAbsent(s[1..], rs, r);
      RemoveFirstCons(s[0], Without(s[1..], rs), r);
    }
  }

  /** Dropping a rule that occurs at most once is filtering it out. */
  lemma {:induction false} RemoveFirstFilters(s: seq<Rule>, rs: seq<Rule>, r: Rule)
    requires multiset(s)[r] <= 1
    ensures RemoveFirst(Without(s, rs), r) == Without(s, rs + [r])
  {
    if s != [] {
      assert s == [s[0]] + s[1..];
      RemoveFirstCons(s[0], Without(s[1..], rs), r);
      if s[0] == r {
        assert r !in multiset(s[1..]);
        RemoveFirstAbsent(s[1..], rs, r);
      } else {
        RemoveFirstFilters(s[1..], rs, r);
      }
    }
  }

  /** Every rule sits in the chain it names. */
  predicate WellPlaced(ch: Chains) {
    forall c: Chain, r: Rule :: r in ch.Get(c) ==> r.chain == c
  }

  /** Dropping rules that occur at most once leaves every other rule in its old order. */
  lemma {:induction false} DropAllKeepsOrder(ch: Chains, rs: seq<Rule>, c: Chain)
    requires WellPlaced(ch) && forall r :: r in rs ==> Count(ch, r) <= 1
    ensures DropAll(ch, rs).Get(c) == Without(ch.Get(c), rs)
  {
    if rs == [] {
      WithoutNone(ch.Get(c), rs);
    } else {
      var n := |rs| - 1;
      var r := rs[n];
      assert rs == rs[..n] + [r];
      assert Count(ch, r) <= 1;
      DropAllKeepsOrder(ch, rs[..n], c);
      if r.chain == c {
        RemoveFirstFilters(ch.Get(c), rs[..n], r);
      } else {
        RemoveFirstAbsent(ch.Get(c), rs[..n], r);
      }
    }
  }

  /** Installing rules that were all absent adds them around the old chain. */
  lemma {:induction false} InstallAllKeepsRest(ch: Chains, rs: seq<Rule>, front: bool, skip: seq<Rule>, c: Chain)
    requires forall r :: r in rs ==> r in skip
    ensures Without(InstallAll(ch, rs, front).Get(c), skip) == Without(ch.Get(c), skip)
  {
    if rs != [] {
      var n := |rs| - 1;
      var r := rs[n];
      var before := InstallAll(ch, rs[..n], front);
      InstallAllKeepsRest(ch, rs[..n], front, skip, c);
      assert r in skip;
      assert Without([r], skip) == [];
      WithoutConcat([r], before.Get(c), skip);
      WithoutConcat(before.Get(c), [r], skip);
    }
  }

  lemma {:induction false} InstallAllWellPlaced(ch: Chains, rs: seq<Rule>, front: bool)
    requires WellPlaced(ch)
    ensures WellPlaced(InstallAll(ch, rs, front))
  {
    if rs != [] {
      InstallAllWellPlaced(ch, rs[..|rs| - 1], front);
    }
  }

  lemma {:induction false} RemoveFirstSubset(s: seq<Rule>, r: Rule)
    ensures forall x :: x in RemoveFirst(s, r) ==> x in s
  {
    if s != [] {
      RemoveFirstSubset(s[1..], r);
    }
  }

  lemma {:induction false} DropAllWellPlaced(ch: Chains, rs: seq<Rule>)
    requires WellPlaced(ch)
    ensures WellPlaced(DropAll(ch, rs))
  {
    if rs != [] {
      var before := DropAll(ch, rs[..|rs| - 1]);
      var r := rs[|rs| - 1];
      DropAllWellPlaced(ch, rs[..|rs| - 1]);
      RemoveFirstSubset(before.Get(r.chain), r);
    }
  }

  // --- The laws of apply and remove ---

  /** Applying and then removing rules that were all absent restores every chain exactly. */
  lemma ApplyThenRemove(ch: Chains, rs: seq<Rule>, front: bool)
    requires WellPlaced(ch) && forall r :: r in rs ==> !Has(ch, r)
    ensures DropAll(InstallAll(ch, rs, front), rs) == ch
  {
    var after := InstallAll(ch, rs, front);
    InstallAllWellPlaced(ch, rs, front);
    forall r | r in rs
      ensures Count(ch, r) == 0 && Count(after, r) <= 1
    {
      HasIffCounted(ch, r);
      CountInstallAll(ch, rs, front, r);
    }
    forall c: Chain
      ensures DropAll(after, rs).Get(c) == ch.Get(c)
    {
      DropAllKeepsOrder(after, rs, c);
      InstallAllKeepsRest(ch, rs, front, rs, c);
      forall r | r in rs
        ensures r !in ch.Get(c)
      {
        assert !Has(ch, r);
        assert r in ch.Get(c) ==> r.chain == c;
      }
      WithoutNone(ch.Get(c), rs);
    }
    SameChains(DropAll(after, rs), ch);
  }

  lemma SameChains(a: Chains, b: Chains)
    requires forall c: Chain :: a.Get(c) == b.Get(c)
    ensures a == b
  {
    assert a.Get(Prerouting) == b.Get(Prerouting) && a.Get(Postrouting) == b.Get(Postrouting)
           && a.Get(Forward) == b.Get(Forward);
  }

  /** Rules that are all present are not installed again. */
  lemma {:induction false} InstallPresent(ch: Chains, rs: seq<Rule>, front: bool)
    requires forall r :: r in rs ==> Has(ch, r)
    ensures InstallAll(ch, rs, front) == ch
  {
    if rs != [] {
      InstallPresent(ch, rs[..|rs| - 1], front);
    }
  }

  /** Applying twice is applying once. */
  lemma ApplyIdempotent(ch: Chains, rs: seq<Rule>, front: bool)
    ensures InstallAll(InstallAll(ch, rs, front), rs, front) == InstallAll(ch, rs, front)
  {
    var after := InstallAll(ch, rs, front);
    forall r | r in rs
      ensures Has(after, r)
    {
      CountInstallAll(ch, rs, front, r);
      HasIffCounted(after, r);
    }
    InstallPresent(after, rs, front);
  }

  /** Rules that are all absent are not dropped. */
  lemma {:induction false} DropAbsent(ch: Chains, rs: seq<Rule>)
    requires forall r :: r in rs ==> !Has(ch, r)
    ensures DropAll(ch, rs) == ch
  {
    if rs != [] {
      var n := |rs| - 1;
      DropAbsent(ch, rs[..n]);
      assert !Has(ch, rs[n]);
      RemoveMissing(ch.Get(rs[n].chain), rs[n]);
      SameChains(Dropped(ch, rs[n]), ch);
    }
  }

  lemma {:induction false} RemoveMissing(s: seq<Rule>, r: Rule)
    requires r !in s
    ensures RemoveFirst(s, r) == s
  {
    if s != [] {
      RemoveMissing(s[1..], r);
    }
  }

  /** A fresh forward's two FORWARD rules end up ahead of everything that was there, and
      its DNAT and MASQUERADE rules behind it. */
  lemma FreshForwardPlacement(ch: Chains, id: nat, pf: PortForward, device: string)
    requires forall r :: r in PfRules(id, pf, device) ==> !Has(ch, r)
    ensures var rs := PfRules(id, pf, device);
            var after := InstallAll(ch, rs, true);
            after.forward == [rs[2], rs[1]] + ch.forward
            && after.prerouting == ch.prerouting + [rs[0]]
            && after.postrouting == ch.postrouting + [rs[3]]
  {
    var rs := PfRules(id, pf, device);
    assert forall i :: 0 <= i < 4 ==> rs[i] in rs;
    hide PfComment, Installed, InstallAll, Has;
    FourPlaced(ch, rs);
  }

  lemma FourPlaced(ch: Chains, rs: seq<Rule>)
    requires |rs| == 4 && rs[0].chain == Prerouting && rs[3].chain == Postrouting
    requires rs[1].chain == rs[2].chain == Forward && rs[1] != rs[2]
    requires forall i :: 0 <= i < 4 ==> !Has(ch, rs[i])
    ensures var after := InstallAll(ch, rs, true);
            after.forward == [rs[2], rs[1]] + ch.forward
            && after.prerouting == ch.prerouting + [rs[0]]
            && after.postrouting == ch.postrouting + [rs[3]]
  {
    hide Installed, InstallAll;
    InstallFour(ch, rs, true);
    FreshRule(ch, rs[0], true);
    var c1 := ch.(prerouting := ch.prerouting + [rs[0]]);
    FreshRule(c1, rs[1], true);
    var c2 := c1.(forward := [rs[1]] + ch.forward);
    FreshRule(c2, rs[2], true);
    var c3 := c2.(forward := [rs[2]] + c2.forward);
    FreshRule(c3, rs[3], true);
    assert c3.forward == [rs[2], rs[1]] + ch.forward;
  }

  lemma FreshRule(ch: Chains, r: Rule, front: bool)
    requires !Has(ch, r)
    ensures Installed(ch, r, front) ==
            match r.chain
            case Prerouting => ch.(prerouting := ch.prerouting + [r])
            case Postrouting => ch.(postrouting := ch.postrouting + [r])
            case Forward => ch.(forward := if front then [r] + ch.forward else ch.forward + [r])
  {
  }

  lemma InstallFour(ch: Chains, rs: seq<Rule>, front: bool)
    requires |rs| == 4
    ensures InstallAll(ch, rs, front)
            == Installed(Installed(Installed(Installed(ch, rs[0], front), rs[1], front), rs[2], front), rs[3], front)
  {
    hide Installed;
    assert rs[..4] == rs && rs[..4][..3] == rs[..3] && rs[..3][..2] == rs[..2] && rs[..2][..1] == rs[..1]
           && rs[..1][..0] == [];
    assert InstallAll(ch, rs[..0], front) == ch;
    assert InstallAll(ch, rs[..1], front) == Installed(ch, rs[0], front);
    assert InstallAll(ch, rs[..2], front) == Installed(InstallAll(ch, rs[..1], front), rs[1], front);
    assert InstallAll(ch, rs[..3], front) == Installed(InstallAll(ch, rs[..2], front), rs[2], front);
  }

  // --- Packets ---

  /** What rules look at. The outgoing interface is decided after PREROUTING; established
      stands for the states RELATED and ESTABLISHED. */
  datatype Packet = Packet(
    inIface: string,
    outIface: string,
    source: Address,
    dest: Address,
    proto: Option<Proto>,
    dport: int,
    established: bool)

  /** Every option the rule gives agrees with the packet. */
  predicate Matches(r: Rule, p: Packet) {
    && (r.inIface.Some? ==> r.inIface.value == p.inIface)
    && (r.outIface.Some? ==> r.outIface.value == p.outIface)
    && (r.source.Some? ==> Contains(r.source.value.ip, r.source.value.prefix, p.source))
    && (r.proto.Some? ==> p.proto == r.proto)
    && (r.dest.Some? ==> r.dest.value == p.dest)
    && (r.dport.Some? ==> r.dport.value == p.dport)
    && (r.established ==> p.established)
  }

  /** The target of the first managed rule that matches a packet, as iptables would find it. */
  ghost function FirstManaged(chain: seq<Rule>, p: Packet): Option<Target> {
    if chain == [] then None
    else if Tagged(chain[0]) && Matches(chain[0], p) then Some(chain[0].target)
    else FirstManaged(chain[1..], p)
  }

  lemma {:induction false} FirstManagedIs(chain: seq<Rule>, p: Packet)
    ensures var hit := FirstManaged(chain, p);
            && (hit.None? ==> forall r :: r in chain && Tagged(r) ==> !Matches(r, p))
            && (hit.Some? ==> exists r :: r in chain && Tagged(r) && Matches(r, p) && r.target == hit.value)
  {
    hide Matches;
    if chain != [] {
      FirstManagedIs(chain[1..], p);
      if Tagged(chain[0]) && Matches(chain[0], p) {
        assert chain[0] in chain;
      } else {
        assert forall r :: r in chain ==> r == chain[0] || r in chain[1..];
        assert forall r :: r in chain[1..] ==> r in chain;
      }
    }
  }
}
