/** Runs of the whole service: any sequence of requests, restarts of the program, reboots of
    the host and events in the kernel, one after another, with every store free to fail. */
module Runs {
  import opened Text
  import opened Ipv4
  import opened Models
  import opened Firewall
  import opened KernelMirror
  import opened ForwardTags
  import opened NatShares
  import opened ForwardService
  import opened Packets
  import opened Boot
  import opened PeerAddresses
  import opened ControlPlane
  import Database
  import Kernel

  datatype Event =
    | InterfaceCreate(row: Interface)
    | InterfaceUpdate(id: nat, listenPort: int, address: Cidr, mtu: int,
                      enabled: Option<bool>, masquerade: Option<bool>, egress: string)
    | InterfaceDelete(id: nat)
    | InterfaceRestore(id: nat)
    | InterfacePurge(id: nat)
    | InterfaceSync(id: nat)
    | PeerCreate(peer: Peer, chosen: Option<Address>)
    | PeerChange(id: nat, name: string, keepalive: int, switch: Option<bool>)
    | PeerDelete(id: nat)
    | PeerRestore(id: nat)
    | PeerPurge(id: nat)
    | ForwardCreate(iface: nat, peerId: nat, proto: Proto, publicPort: int, targetPort: int)
    | ForwardChange(id: nat, targetPort: int, switch: Option<bool>)
    | ForwardDelete(id: nat)
    | Restart
    | HostReboot
    | Handshake(device: string, key: Key, session: nat)
    | RouteChange(uplink: string)

  /** What binding and the kernel guarantee: an interface has a name, and a route's
      interface name has no spaces around it. */
  predicate WellFormed(e: Event) {
    match e
    case InterfaceCreate(row) => row.name != ""
    case RouteChange(uplink) => Trimmed(uplink)
    case _ => true
  }

  /** The three stores at one moment, whether the kernel forwards packets, and the panel's port. */
  datatype Snapshot = Snapshot(
    t: Tables,
    devices: map<string, Kernel.Device>,
    chains: Chains,
    forwarding: bool,
    panel: int)

  ghost function Now(cp: ControlPlane): Snapshot
    reads cp.db, cp.kernel, cp.fw
  {
    Snapshot(cp.db.t, cp.kernel.devices, cp.fw.chains, cp.fw.forwarding, cp.serverPort)
  }

  /** What holds at every moment of every run, whatever failed. */
  ghost predicate Safe(s: Snapshot) {
    Database.Integrity(s.t) && TagSafe(s.t, s.chains) && WellPlaced(s.chains)
  }

  /** Packets are forwarded, or only other programs' rules are in the chains. */
  ghost predicate RoutedAt(s: Snapshot, base: Chains) {
    Routed(s.forwarding, s.chains, base)
  }

  /** No forward takes SSH or the panel. */
  predicate HostKept(s: Snapshot) {
    HostPortsFree(s.t, s.panel)
  }

  ghost predicate Mirrored(s: Snapshot) {
    Mirror(s.t, s.devices)
  }

  ghost predicate NatRight(s: Snapshot, base: Chains) {
    NatExact(s.t, s.chains, base)
  }

  /** Every enabled forward of a live peer on a live enabled interface has its four rules. */
  ghost predicate Serving(s: Snapshot) {
    ForwardsServed(s.t, s.chains)
  }

  ghost predicate TidyAt(s: Snapshot, base: Chains) {
    Tidy(s.t, base)
  }

  /** What one step from a to b keeps; clean says that no call failed in it. */
  ghost predicate StepKeeps(a: Snapshot, b: Snapshot, clean: bool, base: Chains) {
    && Safe(b) && RoutedAt(b, base) && b.panel == a.panel && (HostKept(a) ==> HostKept(b))
    && (clean && Mirrored(a) ==> Mirrored(b))
    && (clean && Serving(a) ==> Serving(b))
    && (clean && NatRight(a, base) && TidyAt(a, base) && TidyAt(b, base) ==> NatRight(b, base))
  }

  /** Everything the program manages is as the database demands, down to the last keepalive and
      with no tagged rule beyond those a start installs. */
  ghost predicate Settled(s: Snapshot, base: Chains) {
    && Mirrored(s) && AllExact(s.t, s.devices) && ForwardsExact(s.t, s.chains)
    && TidyAt(s, base) && NatRight(s, base)
  }

  /** The same but for the forwarding switch. */
  predicate SameButSwitch(a: Snapshot, b: Snapshot) {
    b == a.(forwarding := b.forwarding)
  }

  /** What a start does beyond that, if no call fails: it installs every promised forward and
      leaves rows, devices and rules alone where everything is settled, and after a reboot it settles everything. */
  ghost predicate StartDoes(a: Snapshot, e: Event, b: Snapshot, base: Chains) {
    && (e.Restart? || e.HostReboot? ==> Serving(b))
    && (e.Restart? && Settled(a, base) ==> SameButSwitch(a, b))
    && (e.HostReboot? ==> Mirrored(b) && (TidyAt(b, base) ==> Settled(b, base)))
  }

  ghost predicate EventDoes(a: Snapshot, e: Event, b: Snapshot, clean: bool, base: Chains) {
    StepKeeps(a, b, clean, base) && (clean ==> StartDoes(a, e, b, base))
  }

  /** One event has kept what a run keeps, and left the stores valid. */
  twostate predicate Stepped(cp: ControlPlane)
    reads cp.db, cp.kernel, cp.fw
  {
    && StepKeeps(old(Now(cp)), Now(cp), cp.Clean(), cp.base) && cp.Valid()
    && cp.db.failures >= old(cp.db.failures) && cp.kernel.failures >= old(cp.kernel.failures)
    && cp.fw.failures >= old(cp.fw.failures) && cp.db.t.nextId <= old(cp.db.t.nextId) + 1
  }

  /** The event looks for a free address. */
  predicate Allocates(e: Event) {
    e.PeerCreate? && e.chosen.None?
  }

  /** Fewer ids have been given out than there are addresses. */
  predicate FewIds(t: Tables, more: nat) {
    t.nextId + more < 0xffff_fffe
  }

  /** Then no interface's address space is exhausted, and looking for a free address ends. */
  lemma SearchEnds(t: Tables, iface: nat)
    requires Database.Integrity(t) && FewIds(t, 0)
    ensures iface in t.ifaces && t.ifaces[iface].address.prefix == 0 ==> exists a: Address :: Assignable(t, iface, a)
  {
    if iface in t.ifaces && t.ifaces[iface].address.prefix == 0 {
      RoomAtPrefixZero(t, iface);
    }
  }

  predicate OnPeer(e: Event) {
    e.PeerCreate? || e.PeerChange? || e.PeerDelete? || e.PeerRestore? || e.PeerPurge?
  }

  predicate OnInterface(e: Event) {
    e.InterfaceCreate? || e.InterfaceUpdate? || e.InterfaceDelete? || e.InterfaceRestore? || e.InterfacePurge?
      || e.InterfaceSync?
  }

  predicate Removes(e: Event) {
    e.InterfaceDelete? || e.InterfacePurge?
  }

  predicate OnHost(e: Event) {
    e.Restart? || e.HostReboot?
  }

  /** What every handler keeps, with the forwards still served and the host's ports still free,
      is a step. */
  twostate lemma StepIsKept(cp: ControlPlane)
    requires old(cp.Valid()) && cp.Valid()
    requires cp.db.failures >= old(cp.db.failures) && cp.kernel.failures >= old(cp.kernel.failures)
    requires cp.fw.failures >= old(cp.fw.failures) && cp.db.t.nextId <= old(cp.db.t.nextId) + 1
    requires cp.Clean() && old(cp.Mirrors()) ==> cp.Mirrors()
    requires cp.Clean() && old(cp.NatIsExact()) && old(cp.IsTidy()) && cp.IsTidy() ==> cp.NatIsExact()
    requires cp.Clean() && ForwardsServed(old(cp.db.t), old(cp.fw.chains)) ==> ForwardsServed(cp.db.t, cp.fw.chains)
    requires HostPortsFree(old(cp.db.t), cp.serverPort) ==> HostPortsFree(cp.db.t, cp.serverPort)
    ensures Stepped(cp)
  {
    hide Routed, Database.Integrity, Mirror, NatExact, TagSafe, Tidy, ForwardsServed, HostPortsFree;
  }

  method HandlePeer(cp: ControlPlane, e: Event) returns (reply: Reply)
    requires cp.Valid() && OnPeer(e) && (Allocates(e) ==> FewIds(cp.db.t, 0))
    modifies cp.db, cp.kernel, cp.fw
    ensures Stepped(cp)
  {
    hide Stepped, Database.Integrity, Mirror, NatExact, TagSafe, Tidy, ForwardsServed, Promised, OnlyTags, OtherTags,
         AllForwarded, NoTags, HostPortsFree, Shows, ControlPlane.NoAddress, ControlPlane.Collides,
         ControlPlane.OneEntry;
    ghost var t, ch := cp.db.t, cp.fw.chains;
    match e {
      case PeerCreate(row, chosen) =>
        if chosen.None? {
          SearchEnds(cp.db.t, row.iface);
        }
        reply := cp.CreatePeer(row.iface, row, chosen);
        if ForwardsServed(t, ch) {
          ServedAfterNewPeer(t, cp.db.t, ch);
        }
      case PeerChange(id, name, keepalive, switch) =>
        reply := cp.UpdatePeer(id, name, keepalive, switch);
        if ForwardsServed(t, ch) {
          ServedAfterSaving(t, cp.db.t, ch, id);
        }
      case PeerDelete(id) =>
        reply := cp.DeletePeer(id);
        if cp.Clean() && ForwardsServed(t, ch) {
          ServedAfterTrashing(t, cp.db.t, ch, cp.fw.chains, id);
        }
      case PeerRestore(id) =>
        reply := cp.RestorePeer(id);
        if cp.Clean() && ForwardsServed(t, ch) {
          if reply.Success? && t.peers[id].trashed {
            ServedAfterRestoring(t, cp.db.t, ch, cp.fw.chains, id);
          } else {
            ServedAfterSaving(t, cp.db.t, ch, id);
          }
        }
      case PeerPurge(id) =>
        reply := cp.PurgePeer(id);
        if cp.Clean() && ForwardsServed(t, ch) {
          ServedAfterPurging(t, cp.db.t, ch, cp.fw.chains, id);
        }
    }
    if HostPortsFree(t, cp.serverPort) {
      FewerForwardsStayFree(t, cp.db.t, cp.serverPort);
    }
    StepIsKept(cp);
  }

  method HandleInterface(cp: ControlPlane, e: Event) returns (reply: Reply)
    requires cp.Valid() && OnInterface(e) && !Removes(e) && WellFormed(e)
    modifies cp.db, cp.kernel, cp.fw
    ensures Stepped(cp)
  {
    hide Stepped, Database.Integrity, Mirror, NatExact, TagSafe, Tidy, ForwardsServed, OtherTags, SameTags,
         OtherDevices, SameElsewhere, AllForwarded, NoTags, HostPortsFree, DeviceShows, Carries, ControlPlane.LinkKept,
         ControlPlane.AllPeersLive;
    ghost var t, ch := cp.db.t, cp.fw.chains;
    match e {
      case InterfaceCreate(row) =>
        reply := cp.CreateInterface(row);
        if ForwardsServed(t, ch) {
          ServedAfterNewInterface(t, cp.db.t, ch, cp.fw.chains);
        }
      case InterfaceUpdate(id, listenPort, address, mtu, enabled, masquerade, egress) =>
        reply := cp.UpdateInterface(id, listenPort, address, mtu, enabled, masquerade, egress);
        if cp.Clean() && ForwardsServed(t, ch) && reply.Success? {
          var row := ControlPlane.UpdatedInterface(t.ifaces[id], listenPort, address, mtu, enabled, masquerade, egress);
          InterfaceWrites(t, id, row);
          ServedAfterSettling(t, Database.PutInterface(t, id, row), cp.db.t, ch, cp.fw.chains, id);
        }
      case InterfaceRestore(id) =>
        reply := cp.RestoreInterface(id);
        if cp.Clean() && ForwardsServed(t, ch) && reply.Success? && t.ifaces[id].trashed {
          InterfaceWrites(t, id, t.ifaces[id].(trashed := false));
          ServedAfterSettling(t, ControlPlane.WithPeersRestored(t, id), cp.db.t, ch, cp.fw.chains, id);
        }
      case InterfaceSync(id) =>
        reply := cp.SyncInterface(id);
        if ForwardsServed(t, ch) {
          ServedAfterResync(t, cp.db.t, ch, cp.fw.chains, id);
        }
    }
    if HostPortsFree(t, cp.serverPort) {
      FewerForwardsStayFree(t, cp.db.t, cp.serverPort);
    }
    StepIsKept(cp);
  }

  method HandleRemoval(cp: ControlPlane, e: Event) returns (reply: Reply)
    requires cp.Valid() && Removes(e) && WellFormed(e)
    modifies cp.db, cp.kernel, cp.fw
    ensures Stepped(cp)
  {
    hide Stepped, Database.Integrity, Mirror, NatExact, TagSafe, Tidy, ForwardsServed, OtherTags, SameTags,
         OtherDevices, SameElsewhere, AllForwarded, NoTags, HostPortsFree, DeviceShows, Carries, ControlPlane.LinkKept,
         ControlPlane.AllPeersLive;
    ghost var t, ch := cp.db.t, cp.fw.chains;
    match e {
      case InterfaceDelete(id) =>
        reply := cp.DeleteInterface(id);
        if cp.Clean() && ForwardsServed(t, ch) && reply.Success? {
          InterfaceWrites(t, id, t.ifaces[id].(trashed := true));
          ServedWithout(t, t, cp.db.t, ch, cp.fw.chains, id);
        }
      case InterfacePurge(id) =>
        reply := cp.PurgeInterface(id);
        if cp.Clean() && ForwardsServed(t, ch) && reply.Success? {
          ghost var u := t.(forwards := cp.db.t.forwards);
          InterfaceWrites(u, id, t.ifaces[id]);
          ServedWithout(t, u, cp.db.t, ch, cp.fw.chains, id);
        }
    }
    if HostPortsFree(t, cp.serverPort) {
      FewerForwardsStayFree(t, cp.db.t, cp.serverPort);
    }
    StepIsKept(cp);
  }

  method HandleOther(cp: ControlPlane, e: Event) returns (reply: Reply)
    requires cp.Valid()
    requires !OnPeer(e) && !OnInterface(e) && !OnHost(e) && WellFormed(e)
    modifies cp.db, cp.kernel, cp.fw
    ensures Stepped(cp)
  {
    hide Stepped, Database.Integrity, Mirror, NatExact, TagSafe, Tidy, ForwardsServed, Promised, OtherTags,
         SameUntagged, AllForwarded, FullyForwarded, NoTag;
    ghost var t, ch := cp.db.t, cp.fw.chains;
    reply := Success;
    match e {
      case ForwardCreate(iface, peer, proto, publicPort, targetPort) =>
        reply := cp.CreateForward(iface, peer, proto, publicPort, targetPort);
        if ForwardsServed(t, ch) && reply.Success? {
          ServedAfterForward(t, cp.db.t, ch, cp.fw.chains, t.nextId);
        }
      case ForwardChange(id, targetPort, switch) =>
        reply := cp.UpdateForward(id, targetPort, switch);
        if cp.Clean() && ForwardsServed(t, ch) {
          ServedAfterChange(t, cp.db.t, ch, cp.fw.chains, id);
        }
      case ForwardDelete(id) =>
        reply := cp.DeleteForward(id);
        if cp.Clean() && ForwardsServed(t, ch) {
          ServedAfterChange(t, cp.db.t, ch, cp.fw.chains, id);
        }
      case Handshake(device, key, session) =>
        if Mirrored(Now(cp)) {
          MirrorShaken(cp.db.t, cp.kernel.devices, device, key, session);
        }
        cp.kernel.Handshake(device, key, session);
      case RouteChange(uplink) => cp.fw.ChangeRoute(uplink);
    }
    StepIsKept(cp);
  }

  /** A start of the program, or a reboot of the host and then a start. */
  method HandleStart(cp: ControlPlane, e: Event, others: Chains) returns (reply: Reply)
    requires cp.Valid() && cp.ForeignBase() && others == cp.base && OnHost(e)
    modifies cp.db, cp.kernel, cp.fw
    ensures Stepped(cp)
    ensures cp.Clean() ==> StartDoes(old(Now(cp)), e, Now(cp), cp.base)
  {
    hide Routed, Database.Integrity, Mirror, NatExact, TagSafe, Tidy, ForwardsServed, ForwardsExact, AllForwarded,
         AllExact, NoTag;
    ghost var t := cp.db.t;
    reply := Success;
    if e.Restart? {
      cp.BootstrapRuntime();
    } else {
      cp.Reboot(others);
      if cp.Clean() {
        ForwardsAlreadyThere(cp.db.t, cp.fw.chains);
      }
    }
    TidyWithEgresses(t, cp.db.t, cp.base);
    if cp.Clean() {
      DueCoversPromised(cp.db.t, cp.fw.chains);
    }
  }

  lemma TidyWithEgresses(a: Tables, b: Tables, base: Chains)
    requires EgressesOnly(a, b)
    ensures Tidy(a, base) ==> Tidy(b, base)
  {
    if Tidy(a, base) {
      TidyMoves(a, b, base);
    }
  }

  lemma NoStart(a: Snapshot, e: Event, b: Snapshot, base: Chains)
    requires !OnHost(e)
    ensures StartDoes(a, e, b, base)
  {
  }

  method Handle(cp: ControlPlane, e: Event, others: Chains) returns (reply: Reply)
    requires cp.Valid() && cp.ForeignBase() && others == cp.base
    requires WellFormed(e) && (Allocates(e) ==> FewIds(cp.db.t, 0))
    modifies cp.db, cp.kernel, cp.fw
    ensures Stepped(cp)
    ensures cp.Clean() ==> StartDoes(old(Now(cp)), e, Now(cp), cp.base)
  {
    hide StepKeeps, StartDoes, Database.Integrity, TagSafe, NoTag;
    if OnHost(e) {
      reply := HandleStart(cp, e, others);
      return;
    }
    if OnPeer(e) {
      reply := HandlePeer(cp, e);
    } else if Removes(e) {
      reply := HandleRemoval(cp, e);
    } else if OnInterface(e) {
      reply := HandleInterface(cp, e);
    } else {
      reply := HandleOther(cp, e);
    }
    NoStart(old(Now(cp)), e, Now(cp), cp.base);
  }

  // --- Runs ---

  /** A run moment by moment; clean tells for each event that no call failed in it. */
  ghost predicate Ran(run: seq<Snapshot>, events: seq<Event>, clean: seq<bool>, base: Chains) {
    && |run| == |events| + 1 && |clean| == |events| && Safe(run[0]) && RoutedAt(run[0], base)
    && forall k :: 0 <= k < |events| ==> EventDoes(run[k], events[k], run[k + 1], clean[k], base)
  }

  /** No call failed from moment i to moment j. */
  predicate CleanBetween(clean: seq<bool>, i: nat, j: nat) {
    forall k :: i <= k < j && k < |clean| ==> clean[k]
  }

  ghost predicate TidyBetween(run: seq<Snapshot>, base: Chains, i: nat, j: nat) {
    forall k :: i <= k <= j && k < |run| ==> TidyAt(run[k], base)
  }

  lemma RunGrows(run: seq<Snapshot>, events: seq<Event>, clean: seq<bool>, base: Chains,
                 e: Event, s: Snapshot, ok: bool)
    requires Ran(run, events, clean, base) && EventDoes(run[|events|], e, s, ok, base)
    ensures Ran(run + [s], events + [e], clean + [ok], base)
    ensures CleanBetween(clean + [ok], 0, |events| + 1) <==> CleanBetween(clean, 0, |events|) && ok
  {
    hide EventDoes, Safe;
    forall k | 0 <= k < |events| + 1
      ensures EventDoes((run + [s])[k], (events + [e])[k], (run + [s])[k + 1], (clean + [ok])[k], base)
    {
      if k < |events| {
        assert EventDoes(run[k], events[k], run[k + 1], clean[k], base);
      }
    }
    assert forall k :: 0 <= k < |events| ==> (clean + [ok])[k] == clean[k];
    assert (clean + [ok])[|events|] == ok;
  }

  /** Every moment is safe, packets are forwarded wherever there are managed rules, and no forward
      ever takes SSH or the panel, whatever failed. */
  lemma {:induction false} AlwaysSafe(run: seq<Snapshot>, events: seq<Event>, clean: seq<bool>, base: Chains, j: nat)
    requires Ran(run, events, clean, base) && j <= |events|
    ensures Safe(run[j]) && RoutedAt(run[j], base)
    ensures run[j].panel == run[0].panel && (HostKept(run[0]) ==> HostKept(run[j]))
    decreases j
  {
    hide Safe, RoutedAt, HostKept;
    if j > 0 {
      AlwaysSafe(run, events, clean, base, j - 1);
      assert EventDoes(run[j - 1], events[j - 1], run[j], clean[j - 1], base);
    }
  }

  /** As long as no call fails, what is right stays right: devices, forwards and, while the data
      is tidy, NAT rules. */
  lemma {:induction false} RightStaysRight(run: seq<Snapshot>, events: seq<Event>, clean: seq<bool>, base: Chains,
                                           i: nat, j: nat)
    requires Ran(run, events, clean, base) && i <= j <= |events| && CleanBetween(clean, i, j)
    ensures Mirrored(run[i]) ==> Mirrored(run[j])
    ensures Serving(run[i]) ==> Serving(run[j])
    ensures NatRight(run[i], base) && TidyBetween(run, base, i, j) ==> NatRight(run[j], base)
    decreases j
  {
    hide Mirrored, Serving, NatRight, TidyAt, Safe, RoutedAt, Settled;
    if i < j {
      RightStaysRight(run, events, clean, base, i, j - 1);
      assert EventDoes(run[j - 1], events[j - 1], run[j], clean[j - 1], base);
    }
  }

  /** Whatever happened and failed before, from an error-free reboot on everything is right for
      as long as no call fails. */
  lemma RebootRecovers(run: seq<Snapshot>, events: seq<Event>, clean: seq<bool>, base: Chains, k: nat, j: nat)
    requires Ran(run, events, clean, base) && k < j <= |events| && events[k].HostReboot? && CleanBetween(clean, k, j)
    ensures Mirrored(run[j]) && Serving(run[j])
    ensures TidyBetween(run, base, k + 1, j) ==> NatRight(run[j], base)
  {
    hide Mirrored, Serving, NatRight, TidyAt, Safe, RoutedAt;
    assert EventDoes(run[k], events[k], run[k + 1], clean[k], base);
    RightStaysRight(run, events, clean, base, k + 1, j);
  }

  /** Likewise for the forwards from an error-free start of the program on. */
  lemma RestartServes(run: seq<Snapshot>, events: seq<Event>, clean: seq<bool>, base: Chains, k: nat, j: nat)
    requires Ran(run, events, clean, base) && k < j <= |events| && events[k].Restart? && CleanBetween(clean, k, j)
    ensures Serving(run[j])
  {
    hide Mirrored, Serving, NatRight, TidyAt, Safe, RoutedAt, Settled;
    assert EventDoes(run[k], events[k], run[k + 1], clean[k], base);
    RightStaysRight(run, events, clean, base, k + 1, j);
  }

  /** After a reboot, a second start leaves every row, device and rule as it is. */
  lemma SecondStartIsIdle(run: seq<Snapshot>, events: seq<Event>, clean: seq<bool>, base: Chains, k: nat)
    requires Ran(run, events, clean, base) && k + 1 < |events| && events[k].HostReboot? && events[k + 1].Restart?
    requires clean[k] && clean[k + 1] && TidyAt(run[k + 1], base)
    ensures Settled(run[k + 1], base) && SameButSwitch(run[k + 1], run[k + 2])
  {
    hide StepKeeps, Mirrored, Serving, TidyAt, Safe, RoutedAt, Settled;
    assert EventDoes(run[k], events[k], run[k + 1], clean[k], base);
    assert EventDoes(run[k + 1], events[k + 1], run[k + 2], clean[k + 1], base);
  }

  /** At a safe moment where forwards are served, a packet for a promised forward goes to its
      peer's address, into the tunnel, and its answers come back; where the devices mirror the
      database too, that peer, if enabled, is the one the device routes the address to. */
  lemma PacketsArrive(s: Snapshot, base: Chains, chain: seq<Rule>, f: nat, p: Packet)
    requires Safe(s) && RoutedAt(s, base) && Serving(s) && Promised(s.t, f)
             && multiset(chain) == multiset(s.chains.prerouting)
    requires Answers(s.t, f, p)
    ensures var row := s.t.forwards[f];
            var peer := s.t.peers[row.peer];
            var device := s.t.ifaces[row.iface].name;
            var sent := p.(dest := peer.ip, dport := row.targetPort, outIface := device);
            && s.forwarding && FirstManaged(chain, p) == Some(Dnat(peer.ip, row.targetPort))
            && Verdict(s.chains.forward, sent, Accept) && Verdict(s.chains.postrouting, sent, Masquerade)
            && (forall q: Packet :: q.inIface == device && q.outIface == row.egress && q.established
                  ==> Verdict(s.chains.forward, q, Accept))
            && (Mirrored(s) && peer.enabled ==> RoutesTo(s, device, peer))
  {
    var row := s.t.forwards[f];
    ForwardIsToPeer(s.t, f);
    ForwardCarries(s.t, s.chains, chain, f, p);
    InstalledIsForwarded(s.t, s.chains, base, f, s.forwarding);
    if Mirrored(s) && s.t.peers[row.peer].enabled {
      OneRoute(s, row.iface, row.peer);
    }
  }

  /** At a safe moment where NAT is right, packets of an up and masquerading interface's network
      leave by its egress masqueraded, and traffic through its tunnel is let through. */
  lemma NetworkIsCarried(s: Snapshot, base: Chains, id: nat)
    requires RoutedAt(s, base) && NatRight(s, base) && id in s.t.ifaces && Natted(s.t.ifaces[id])
    ensures s.forwarding
    ensures var i := s.t.ifaces[id]; Carries(s.chains, i.name, i.address, i.egress)
  {
    InterfaceCarries(s.t, s.chains, base, id);
    NatIsForwarded(s.t, s.chains, base, id, s.forwarding);
  }

  /** SSH and the panel are reached as if the program were not there: while no forward takes
      them, no managed rule rewrites a packet for them. */
  lemma HostStaysReachable(s: Snapshot, chain: seq<Rule>, p: Packet)
    requires Safe(s) && HostKept(s) && multiset(chain) == multiset(s.chains.prerouting)
    requires p.dport == 22 || p.dport == s.panel
    ensures FirstManaged(chain, p) == None
  {
    HostIsReached(s.t, s.chains, chain, s.panel, p);
  }

  /** The device hands packets for p's address to p's key and to no other. */
  ghost predicate RoutesTo(s: Snapshot, device: string, p: Peer) {
    && device in s.devices && p.publicKey in s.devices[device].peers
    && forall k :: k in s.devices[device].peers ==>
         (p.ip in s.devices[device].peers[k].allowed <==> k == p.publicKey)
  }

  lemma ForwardIsToPeer(t: Tables, f: nat)
    requires Database.Integrity(t) && f in t.forwards && t.forwards[f].peer in t.peers
    ensures t.peers[t.forwards[f].peer].ip == t.forwards[f].targetIp
    ensures t.peers[t.forwards[f].peer].iface == t.forwards[f].iface
  {
  }

  lemma OneRoute(s: Snapshot, id: nat, p: nat)
    requires Database.Integrity(s.t) && Mirrored(s) && id in s.t.ifaces && Up(s.t.ifaces[id]) && ServedOn(s.t, id, p)
    ensures RoutesTo(s, s.t.ifaces[id].name, s.t.peers[p])
  {
    UniqueParts(s.t);
    MirrorDevice(s.t, s.devices, id);
    hide Routed, Database.Integrity, Mirror;
    var peers := s.devices[s.t.ifaces[id].name].peers;
    forall k | k in peers
      ensures s.t.peers[p].ip in peers[k].allowed <==> k == s.t.peers[p].publicKey
    {
      var q :| ServedOn(s.t, id, q) && s.t.peers[q].publicKey == k;
      assert peers[k].allowed == {s.t.peers[q].ip};
    }
  }

  /** What the first start of a fresh panel finds: no row, no device, other programs' rules. */
  lemma FreshPanelIsRight(base: Chains, forwarding: bool, panel: int)
    requires WellPlaced(base) && forall f: nat :: NoTag(base, f)
    ensures var s := Snapshot(Tables(map[], map[], map[], 1), map[], base, forwarding, panel);
            Safe(s) && RoutedAt(s, base) && HostKept(s) && Mirrored(s) && Serving(s) && TidyAt(s, base)
              && NatRight(s, base)
  {
    NothingTagged(Tables(map[], map[], map[], 1), base);
    ForeignIsUnmanaged(base);
    var none: map<nat, Interface> := map[];
    assert Demand(none) == {};
  }

  lemma SafeNow(cp: ControlPlane)
    requires cp.Valid()
    ensures Safe(Now(cp)) && RoutedAt(Now(cp), cp.base)
  {
  }

  /** Every moment is safe, with forwarding on wherever there are managed rules, and no forward
      takes SSH or the panel; and if no call failed, the devices mirror the database at every
      moment, every promised forward has its rules at every moment, and the NAT rules are exact
      at every moment as long as the data is tidy at every moment, each if it was so at first. */
  ghost predicate GoodRun(run: seq<Snapshot>, clean: bool, base: Chains) {
    && run != [] && (forall s :: s in run ==> Safe(s) && RoutedAt(s, base))
    && (HostKept(run[0]) ==> forall s :: s in run ==> HostKept(s))
    && (clean && Mirrored(run[0]) ==> forall s :: s in run ==> Mirrored(s))
    && (clean && Serving(run[0]) ==> forall s :: s in run ==> Serving(s))
    && (clean && NatRight(run[0], base) && (forall s :: s in run ==> TidyAt(s, base))
        ==> forall s :: s in run ==> NatRight(s, base))
  }

  lemma RanIsGood(run: seq<Snapshot>, events: seq<Event>, clean: seq<bool>, base: Chains)
    requires Ran(run, events, clean, base)
    ensures GoodRun(run, CleanBetween(clean, 0, |events|), base)
  {
    hide Safe, RoutedAt, HostKept, Mirrored, Serving, NatRight, TidyAt, EventDoes;
    var all := CleanBetween(clean, 0, |events|);
    forall s | s in run
      ensures Safe(s) && RoutedAt(s, base) && (HostKept(run[0]) ==> HostKept(s))
      ensures (all && Mirrored(run[0]) ==> Mirrored(s)) && (all && Serving(run[0]) ==> Serving(s))
      ensures all && NatRight(run[0], base) && (forall x :: x in run ==> TidyAt(x, base)) ==> NatRight(s, base)
    {
      var j :| 0 <= j < |run| && run[j] == s;
      AlwaysSafe(run, events, clean, base, j);
      if all {
        RightStaysRight(run, events, clean, base, 0, j);
      }
    }
  }

  /** Whatever events come and whatever fails in them, they make a run. */
  method Serve(cp: ControlPlane, events: seq<Event>, others: Chains)
    returns (ghost run: seq<Snapshot>, ghost clean: seq<bool>)
    requires cp.Valid() && cp.ForeignBase() && others == cp.base
    requires forall e :: e in events ==> WellFormed(e)
    requires (exists e :: e in events && Allocates(e)) ==> FewIds(cp.db.t, |events|)
    modifies cp.db, cp.kernel, cp.fw
    ensures Ran(run, events, clean, cp.base) && run[0] == old(Now(cp)) && run[|events|] == Now(cp)
    ensures CleanBetween(clean, 0, |events|) <==> cp.Clean()
    ensures GoodRun(run, cp.Clean(), cp.base)
  {
    run, clean := [Now(cp)], [];
    SafeNow(cp);
    assert Ran(run, events[..0], clean, cp.base) && CleanBetween(clean, 0, 0);
    hide Safe, RoutedAt, HostKept, GoodRun, StepKeeps, StartDoes, Ran, CleanBetween, Database.Integrity, TagSafe, NoTag;
    for i := 0 to |events|
      invariant cp.Valid() && cp.db.t.nextId <= old(cp.db.t.nextId) + i
      invariant cp.db.failures >= old(cp.db.failures) && cp.kernel.failures >= old(cp.kernel.failures)
                && cp.fw.failures >= old(cp.fw.failures)
      invariant |run| == i + 1 && run[0] == old(Now(cp)) && run[i] == Now(cp)
      invariant Ran(run, events[..i], clean, cp.base) && (CleanBetween(clean, 0, i) <==> cp.Clean())
    {
      label Event:
      var _ := Handle(cp, events[i], others);
      RunGrows(run, events[..i], clean, cp.base, events[i], Now(cp), cp.Clean@Event());
      assert events[..i] + [events[i]] == events[..i + 1];
      run, clean := run + [Now(cp)], clean + [cp.Clean@Event()];
    }
    assert events[..|events|] == events;
    RanIsGood(run, events, clean, cp.base);
  }
}
