/** What the rules in the chains do to packets: where a port forward sends a packet and what it
    lets through, what an interface's NAT rules masquerade and accept, and that neither does
    more than that. */
module Packets {
  import opened Text
  import opened Ipv4
  import opened Models
  import opened Firewall
  import opened Database
  import opened Kernel
  import opened KernelMirror
  import opened ForwardTags
  import opened NatShares
  import opened ForwardService
  import opened Allocation

  /** Some rule of the chain matches the packet and has this target. */
  ghost predicate Verdict(chain: seq<Rule>, p: Packet, target: Target) {
    exists r :: r in chain && Matches(r, p) && r.target == target
  }

  // --- Port forwards ---

  /** A packet from the forward's egress into its tunnel, for its target. */
  predicate ToTarget(row: PortForward, device: string, p: Packet) {
    && p.inIface == row.egress && p.outIface == device
    && p.proto == Some(row.proto) && p.dest == row.targetIp && p.dport == row.targetPort
  }

  /** An answer out of the tunnel. */
  predicate IsReply(row: PortForward, device: string, p: Packet) {
    p.inIface == device && p.outIface == row.egress && p.established
  }

  /** A packet into the tunnel for the forward's target, wherever it came from. */
  predicate IntoTunnel(row: PortForward, device: string, p: Packet) {
    p.outIface == device && p.proto == Some(row.proto) && p.dest == row.targetIp && p.dport == row.targetPort
  }

  /** Row f has a rule in this chain that matches. */
  ghost predicate MatchedFor(chain: seq<Rule>, f: nat, p: Packet) {
    exists r :: r in chain && HasTag(r, f) && Matches(r, p)
  }

  /** Whatever of a forward is installed does no more than this: packets to its public port are
      rewritten to its target, packets to the target and answers are accepted, and packets to
      the target are masqueraded. */
  lemma ForwardDoesNoMore(t: Tables, ch: Chains, r: Rule, f: nat, p: Packet)
    requires TagSafe(t, ch) && WellPlaced(ch) && HasTag(r, f) && Matches(r, p)
    requires r in ch.prerouting || r in ch.forward || r in ch.postrouting
    ensures f in t.forwards && t.forwards[f].iface in t.ifaces
    ensures var row := t.forwards[f];
            var device := t.ifaces[row.iface].name;
            && (r in ch.prerouting ==> Answers(t, f, p) && r.target == Dnat(row.targetIp, row.targetPort))
            && (r in ch.forward ==> (ToTarget(row, device, p) || IsReply(row, device, p)) && r.target == Accept)
            && (r in ch.postrouting ==> IntoTunnel(row, device, p) && r.target == Masquerade)
  {
    InItsChain(t, ch, r, f);
  }

  lemma InItsChain(t: Tables, ch: Chains, r: Rule, f: nat)
    requires TagSafe(t, ch) && WellPlaced(ch) && HasTag(r, f)
    requires r in ch.prerouting || r in ch.forward || r in ch.postrouting
    ensures f in t.forwards && t.forwards[f].iface in t.ifaces && r in ForwardRules(t, f)
    ensures r in ch.prerouting <==> r.chain == Prerouting
    ensures r in ch.forward <==> r.chain == Forward
    ensures r in ch.postrouting <==> r.chain == Postrouting
  {
    assert r in ch.Get(Prerouting) || r in ch.Get(Forward) || r in ch.Get(Postrouting);
    assert r in ch.Get(Prerouting) ==> r.chain == Prerouting;
    assert r in ch.Get(Forward) ==> r.chain == Forward;
    assert r in ch.Get(Postrouting) ==> r.chain == Postrouting;
    HasIffCounted(ch, r);
  }

  /** A new connection is matched by a managed FORWARD rule only if it comes in by the egress of
      a forward and is for that forward's target. */
  lemma NewConnectionsComeInByEgress(t: Tables, ch: Chains, r: Rule, p: Packet)
    requires TagSafe(t, ch) && WellPlaced(ch) && r in ch.forward && Tagged(r) && Matches(r, p) && !p.established
    ensures exists f :: f in t.forwards && t.forwards[f].iface in t.ifaces
                        && ToTarget(t.forwards[f], t.ifaces[t.forwards[f].iface].name, p)
  {
    var f: nat :| HasTag(r, f);
    ForwardDoesNoMore(t, ch, r, f, p);
    assert ToTarget(t.forwards[f], t.ifaces[t.forwards[f].iface].name, p);
  }

  /** A fully installed forward does exactly that. */
  lemma ForwardVerdicts(t: Tables, ch: Chains, f: nat, p: Packet)
    requires TagSafe(t, ch) && WellPlaced(ch) && FullyForwarded(t, ch, f)
    ensures var row := t.forwards[f];
            var device := t.ifaces[row.iface].name;
            && (MatchedFor(ch.prerouting, f, p) <==> Answers(t, f, p))
            && (MatchedFor(ch.forward, f, p) <==> ToTarget(row, device, p) || IsReply(row, device, p))
            && (MatchedFor(ch.postrouting, f, p) <==> IntoTunnel(row, device, p))
    ensures var row := t.forwards[f];
            var device := t.ifaces[row.iface].name;
            && (Answers(t, f, p) ==> Verdict(ch.prerouting, p, Dnat(row.targetIp, row.targetPort)))
            && (ToTarget(row, device, p) || IsReply(row, device, p) ==> Verdict(ch.forward, p, Accept))
            && (IntoTunnel(row, device, p) ==> Verdict(ch.postrouting, p, Masquerade))
  {
    OnlyItsPackets(t, ch, f, p);
    AllItsPackets(t, ch, f, p);
  }

  lemma OnlyItsPackets(t: Tables, ch: Chains, f: nat, p: Packet)
    requires TagSafe(t, ch) && WellPlaced(ch) && FullyForwarded(t, ch, f)
    ensures var row := t.forwards[f];
            var device := t.ifaces[row.iface].name;
            && (MatchedFor(ch.prerouting, f, p) ==> Answers(t, f, p))
            && (MatchedFor(ch.forward, f, p) ==> ToTarget(row, device, p) || IsReply(row, device, p))
            && (MatchedFor(ch.postrouting, f, p) ==> IntoTunnel(row, device, p))
  {
    forall r | (r in ch.prerouting || r in ch.forward || r in ch.postrouting) && HasTag(r, f) && Matches(r, p)
      ensures var row := t.forwards[f];
              var device := t.ifaces[row.iface].name;
              && (r in ch.prerouting ==> Answers(t, f, p))
              && (r in ch.forward ==> ToTarget(row, device, p) || IsReply(row, device, p))
              && (r in ch.postrouting ==> IntoTunnel(row, device, p))
    {
      ForwardDoesNoMore(t, ch, r, f, p);
    }
  }

  lemma AllItsPackets(t: Tables, ch: Chains, f: nat, p: Packet)
    requires FullyForwarded(t, ch, f)
    ensures var row := t.forwards[f];
            var device := t.ifaces[row.iface].name;
            && (Answers(t, f, p) ==> MatchedFor(ch.prerouting, f, p)
                                     && Verdict(ch.prerouting, p, Dnat(row.targetIp, row.targetPort)))
            && (ToTarget(row, device, p) || IsReply(row, device, p)
                ==> MatchedFor(ch.forward, f, p) && Verdict(ch.forward, p, Accept))
            && (IntoTunnel(row, device, p)
                ==> MatchedFor(ch.postrouting, f, p) && Verdict(ch.postrouting, p, Masquerade))
  {
    var rs := ForwardRules(t, f);
    PfRulesTagged(f, t.forwards[f], t.ifaces[t.forwards[f].iface].name);
    forall r | r in rs
      ensures HasTag(r, f) && r in ch.Get(r.chain)
    {
      HasIffCounted(ch, r);
    }
    assert rs[0] in rs && rs[1] in rs && rs[2] in rs && rs[3] in rs;
  }

  /** End to end: whatever the order of PREROUTING, a packet for the public port of an installed
      forward is sent to its target, let into the tunnel and masqueraded there, and the answers
      are let out again. */
  lemma ForwardCarries(t: Tables, ch: Chains, chain: seq<Rule>, f: nat, p: Packet)
    requires Integrity(t) && TagSafe(t, ch) && WellPlaced(ch) && multiset(chain) == multiset(ch.prerouting)
    requires FullyForwarded(t, ch, f) && Answers(t, f, p)
    ensures var row := t.forwards[f];
            var device := t.ifaces[row.iface].name;
            var sent := p.(dest := row.targetIp, dport := row.targetPort, outIface := device);
            && FirstManaged(chain, p) == Some(Dnat(row.targetIp, row.targetPort))
            && Verdict(ch.forward, sent, Accept) && Verdict(ch.postrouting, sent, Masquerade)
    ensures var row := t.forwards[f];
            forall q: Packet :: q.inIface == t.ifaces[row.iface].name && q.outIface == row.egress && q.established
              ==> Verdict(ch.forward, q, Accept)
  {
    var row := t.forwards[f];
    var device := t.ifaces[row.iface].name;
    var sent := p.(dest := row.targetIp, dport := row.targetPort, outIface := device);
    AllItsPackets(t, ch, f, sent);
    forall q: Packet | q.inIface == device && q.outIface == row.egress && q.established
      ensures Verdict(ch.forward, q, Accept)
    {
      AllItsPackets(t, ch, f, q);
    }
    var r := ForwardRules(t, f)[0];
    HasIffCounted(ch, r);
    assert DnatInstalled(t, ch, f);
    LookupAgrees(t, ch, chain, p);
  }

  /** While a forward is installed, the kernel forwards packets. */
  lemma InstalledIsForwarded(t: Tables, ch: Chains, base: Chains, f: nat, forwarding: bool)
    requires FullyForwarded(t, ch, f) && Routed(forwarding, ch, base)
    ensures forwarding
  {
    var r := ForwardRules(t, f)[0];
    PfRulesTagged(f, t.forwards[f], t.ifaces[t.forwards[f].iface].name);
    assert HasTag(r, f) && Tagged(r);
    HasIffCounted(ch, r);
    assert Excess(ch, base, r);
  }

  // --- NAT ---

  /** A packet of the interface's network that leaves by its egress. */
  predicate FromNetwork(i: Interface, p: Packet) {
    Contains(i.address.ip, i.address.prefix, p.source) && p.outIface == i.egress
  }

  /** Out of the tunnel, an answer back into it, or from one peer to another. */
  predicate ThroughTunnel(i: Interface, p: Packet) {
    || (p.inIface == i.name && p.outIface == i.egress)
    || (p.inIface == i.egress && p.outIface == i.name && p.established)
    || (p.inIface == i.name && p.outIface == i.name)
  }

  /** What one interface's NAT rules match, and what they do. */
  lemma NatRuleDoes(i: Interface, r: Rule, p: Packet)
    requires r in NatSeq(i) && Matches(r, p)
    ensures (r.chain == Postrouting && FromNetwork(i, p) && r.target == Masquerade)
            || (r.chain == Forward && ThroughTunnel(i, p) && r.target == Accept)
  {
    ContainsMasked(i.address.ip, i.address.prefix, p.source);
  }

  lemma NatRulesFor(i: Interface, p: Packet)
    ensures FromNetwork(i, p) ==> exists r :: r in NatSeq(i) && r.chain == Postrouting && Matches(r, p)
    ensures ThroughTunnel(i, p) ==> exists r :: r in NatSeq(i) && r.chain == Forward && Matches(r, p)
  {
    ContainsMasked(i.address.ip, i.address.prefix, p.source);
    var rs := NatSeq(i);
    assert rs[0] in rs && rs[1] in rs && rs[2] in rs && rs[3] in rs;
  }

  /** Where the NAT rules are exact, every packet of an up and masquerading interface's network
      is masqueraded when it leaves by the egress, and traffic through the tunnel is accepted. */
  lemma NatCarries(t: Tables, ch: Chains, base: Chains, id: nat, p: Packet)
    requires NatExact(t, ch, base) && id in t.ifaces && Natted(t.ifaces[id])
    ensures FromNetwork(t.ifaces[id], p) ==> Verdict(ch.postrouting, p, Masquerade)
    ensures ThroughTunnel(t.ifaces[id], p) ==> Verdict(ch.forward, p, Accept)
  {
    var i := t.ifaces[id];
    NatRulesFor(i, p);
    NatRulesUntagged(SubnetOf(i.address), i.name, i.egress);
    forall r | r in NatSeq(i)
      ensures r in ch.Get(r.chain)
    {
      assert r in DemandOf(i) && r in Demand(t.ifaces);
      HasIffCounted(ch, r);
    }
    forall r | r in NatSeq(i) && Matches(r, p)
      ensures r.target == if r.chain == Postrouting then Masquerade else Accept
    {
      NatRuleDoes(i, r, p);
    }
  }

  /** And beyond the rules of other programs, the untagged rules do nothing else. */
  lemma NatDoesNoMore(t: Tables, ch: Chains, base: Chains, r: Rule, p: Packet)
    requires NatExact(t, ch, base) && !Tagged(r) && Count(ch, r) > Count(base, r) && Matches(r, p)
    ensures exists id :: id in t.ifaces && Natted(t.ifaces[id])
                         && ((r.chain == Postrouting && FromNetwork(t.ifaces[id], p) && r.target == Masquerade)
                             || (r.chain == Forward && ThroughTunnel(t.ifaces[id], p) && r.target == Accept))
  {
    var id :| id in t.ifaces && r in DemandOf(t.ifaces[id]);
    NatRuleDoes(t.ifaces[id], r, p);
  }

  /** So a new connection they accept always comes out of the tunnel of such an interface. */
  lemma NewConnectionsComeOutOfTunnels(t: Tables, ch: Chains, base: Chains, r: Rule, p: Packet)
    requires NatExact(t, ch, base) && !Tagged(r) && Count(ch, r) > Count(base, r) && Matches(r, p)
    requires r.chain == Forward && !p.established
    ensures exists id :: id in t.ifaces && Natted(t.ifaces[id]) && p.inIface == t.ifaces[id].name
  {
    NatDoesNoMore(t, ch, base, r, p);
  }

  /** While an interface's NAT rules are there, too. */
  lemma NatIsForwarded(t: Tables, ch: Chains, base: Chains, id: nat, forwarding: bool)
    requires NatExact(t, ch, base) && id in t.ifaces && Natted(t.ifaces[id]) && Routed(forwarding, ch, base)
    ensures forwarding
  {
    var i := t.ifaces[id];
    var r := NatSeq(i)[0];
    NatRulesUntagged(SubnetOf(i.address), i.name, i.egress);
    assert r in NatSeq(i) && r in DemandOf(i) && r in Demand(t.ifaces);
    assert Excess(ch, base, r);
  }

  // --- The host's own ports ---

  /** A port of the host itself: SSH, the panel, or an interface's listen port. */
  ghost predicate HostPort(t: Tables, panel: int, port: int) {
    port == 22 || port == panel || exists i :: i in t.ifaces && t.ifaces[i].listenPort == port
  }

  /** No forward takes SSH or the panel. */
  predicate HostPortsFree(t: Tables, panel: int) {
    forall f :: f in t.forwards ==> t.forwards[f].publicPort != 22 && t.forwards[f].publicPort != panel
  }

  lemma FewerForwardsStayFree(a: Tables, b: Tables, panel: int)
    requires HostPortsFree(a, panel)
    requires forall f :: f in b.forwards ==> f in a.forwards && b.forwards[f] == a.forwards[f]
    ensures HostPortsFree(b, panel)
  {
  }

  /** Then no managed rule rewrites a packet for them, whatever is installed. */
  lemma HostIsReached(t: Tables, ch: Chains, chain: seq<Rule>, panel: int, p: Packet)
    requires Integrity(t) && TagSafe(t, ch) && WellPlaced(ch) && multiset(chain) == multiset(ch.prerouting)
    requires HostPortsFree(t, panel) && (p.dport == 22 || p.dport == panel)
    ensures FirstManaged(chain, p) == None
  {
    LookupAgrees(t, ch, chain, p);
  }

  /** No forward takes the port an interface listens on. */
  predicate ListenPortsFree(t: Tables) {
    forall f, i :: f in t.forwards && i in t.ifaces ==> t.forwards[f].publicPort != t.ifaces[i].listenPort
  }

  /** A forward that is let in takes none. */
  lemma NewForwardKeepsListenPorts(t: Tables, row: PortForward, panel: int)
    requires !HostPort(t, panel, row.publicPort) && ListenPortsFree(t) && t.nextId !in t.forwards
    ensures ListenPortsFree(AddForward(t, row))
  {
  }

  /** But an interface that is created or updated gets whatever port was asked for: they stay
      free exactly if no forward has that port. */
  lemma ListenPortsStayFreeIff(a: Tables, b: Tables, id: nat)
    requires ListenPortsFree(a) && b.forwards == a.forwards && b.ifaces - {id} == a.ifaces - {id} && id in b.ifaces
    ensures ListenPortsFree(b) <==> forall f :: f in b.forwards ==> b.forwards[f].publicPort != b.ifaces[id].listenPort
  {
    forall f, i | f in b.forwards && i in b.ifaces && i != id
      ensures b.forwards[f].publicPort != b.ifaces[i].listenPort
    {
      assert i in b.ifaces - {id};
      assert b.ifaces[i] == (b.ifaces - {id})[i] == a.ifaces[i];
    }
  }

  /** A forward for UDP port 51821 on an interface that listens on the given port. */
  function OneForward(listenPort: int): Tables {
    Tables(map[1 := Interface("wg0", "", listenPort, Cidr([10, 8, 0, 1], 24), 1420, true, false, "eth0", false)],
           map[2 := Peer(1, "laptop", "key", "", [10, 8, 0, 2], 25, true, false)],
           map[3 := PortForward(1, 2, Udp, 51821, 53, [10, 8, 0, 2], "eth0", true)], 4)
  }

  /** Moving the interface from 51820 to that port is accepted, and its own packets then go to
      the peer. */
  lemma ListenPortIsTaken(ch: Chains, p: Packet)
    ensures var t, u := OneForward(51820), OneForward(51821);
            && u == PutInterface(t, 1, t.ifaces[1].(listenPort := 51821))
            && Integrity(t) && ListenPortsFree(t) && Integrity(u) && !ListenPortsFree(u)
            && (TagSafe(u, ch) && WellPlaced(ch) && FullyForwarded(u, ch, 3)
                && p.inIface == "eth0" && p.proto == Some(Udp) && p.dport == u.ifaces[1].listenPort
                ==> FirstManaged(ch.prerouting, p) == Some(Dnat([10, 8, 0, 2], 53)))
  {
    hide Integrity, TagSafe, WellPlaced, FullyForwarded, ListenPortsFree;
    var u := OneForward(51821);
    OneForwardIsSound(51820);
    OneForwardIsSound(51821);
    if TagSafe(u, ch) && WellPlaced(ch) && FullyForwarded(u, ch, 3) {
      InstalledLands(u, ch, 3);
    }
  }

  lemma OneForwardIsSound(listenPort: int)
    ensures Integrity(OneForward(listenPort)) && (ListenPortsFree(OneForward(listenPort)) <==> listenPort != 51821)
  {
    var t := OneForward(listenPort);
    assert t.ifaces[1].name != "" && t.forwards[3].publicPort == 51821;
    TrimmedName(t.ifaces[1].egress);
    hide Trimmed;
    assert References(t) && UniqueNames(t) && UniqueKeys(t) && UniqueIps(t) && UniquePorts(t);
  }

  lemma TrimmedName(s: string)
    requires s == "eth0"
    ensures Trimmed(s) && s != ""
  {
    assert s[0] == 'e' && s[3] == '0';
  }

  // --- What an interface gets ---

  /** An interface that is on has a device with this key, port and address, and one that is off
      has none. */
  predicate DeviceShows(devices: map<string, Device>, name: string, on: bool, key: Key, port: int, address: Cidr) {
    if on then
      && name in devices && devices[name].privateKey == key && devices[name].listenPort == port
      && address in devices[name].addresses
    else name !in devices
  }

  lemma InterfaceShown(t: Tables, devices: map<string, Device>, id: nat)
    requires Integrity(t) && Mirror(t, devices) && id in t.ifaces
    ensures var i := t.ifaces[id]; DeviceShows(devices, i.name, Up(i), i.privateKey, i.listenPort, i.address)
  {
    UniqueParts(t);
    hide Integrity;
    if Up(t.ifaces[id]) {
      MirrorDevice(t, devices, id);
    } else {
      assert forall i :: UpNamed(t, i, t.ifaces[id].name) ==> i == id;
    }
  }

  /** Packets of the network leave by the egress masqueraded, and pass through the tunnel. */
  ghost predicate Carries(ch: Chains, name: string, address: Cidr, egress: string) {
    forall p: Packet ::
      && (Contains(address.ip, address.prefix, p.source) && p.outIface == egress
          ==> Verdict(ch.postrouting, p, Masquerade))
      && (p.inIface == name && p.outIface == egress ==> Verdict(ch.forward, p, Accept))
      && (p.inIface == egress && p.outIface == name && p.established ==> Verdict(ch.forward, p, Accept))
      && (p.inIface == name && p.outIface == name ==> Verdict(ch.forward, p, Accept))
  }

  lemma InterfaceCarries(t: Tables, ch: Chains, base: Chains, id: nat)
    requires NatExact(t, ch, base) && id in t.ifaces && Natted(t.ifaces[id])
    ensures var i := t.ifaces[id]; Carries(ch, i.name, i.address, i.egress)
  {
    hide NatExact, Natted, Verdict;
    forall p: Packet
      ensures FromNetwork(t.ifaces[id], p) ==> Verdict(ch.postrouting, p, Masquerade)
      ensures ThroughTunnel(t.ifaces[id], p) ==> Verdict(ch.forward, p, Accept)
    {
      NatCarries(t, ch, base, id, p);
    }
  }

  /** What the host shows and carries for interface id, if it is right. */
  lemma InterfaceOutcome(t: Tables, devices: map<string, Device>, ch: Chains, base: Chains, id: nat)
    requires Integrity(t) && id in t.ifaces
    ensures var i := t.ifaces[id];
            && (Mirror(t, devices) ==> DeviceShows(devices, i.name, Up(i), i.privateKey, i.listenPort, i.address))
            && (NatExact(t, ch, base) && Natted(i) ==> Carries(ch, i.name, i.address, i.egress))
  {
    if Mirror(t, devices) {
      InterfaceShown(t, devices, id);
    }
    if NatExact(t, ch, base) && Natted(t.ifaces[id]) {
      InterfaceCarries(t, ch, base, id);
    }
  }

  // --- What a forward's row gets ---

  /** Every packet for this ingress, protocol and port is sent to this address and port. */
  ghost predicate Lands(ch: Chains, ingress: string, proto: Proto, port: int, ip: Address, targetPort: int) {
    forall p: Packet :: p.inIface == ingress && p.proto == Some(proto) && p.dport == port
      ==> FirstManaged(ch.prerouting, p) == Some(Dnat(ip, targetPort))
  }

  lemma InstalledLands(t: Tables, ch: Chains, f: nat)
    requires Integrity(t) && TagSafe(t, ch) && WellPlaced(ch) && FullyForwarded(t, ch, f)
    ensures var row := t.forwards[f];
            Lands(ch, row.egress, row.proto, row.publicPort, row.targetIp, row.targetPort)
  {
    InForwards(t, ch, f);
    hide Integrity, TagSafe, WellPlaced, FullyForwarded;
    var row := t.forwards[f];
    forall p: Packet | p.inIface == row.egress && p.proto == Some(row.proto) && p.dport == row.publicPort
      ensures FirstManaged(ch.prerouting, p) == Some(Dnat(row.targetIp, row.targetPort))
    {
      ForwardCarries(t, ch, ch.prerouting, f, p);
    }
  }

  lemma InForwards(t: Tables, ch: Chains, f: nat)
    requires FullyForwarded(t, ch, f)
    ensures f in t.forwards && t.forwards[f].iface in t.ifaces
  {
  }
}
