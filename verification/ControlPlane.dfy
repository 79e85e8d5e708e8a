/** The request handlers as steps over three stores: the database, the kernel's devices and
    the firewall chains. Every store call may fail, and a handler then carries on or stops
    as the program does. Safety (database integrity, safe tags) holds after every step; the
    exact host state holds after every run of steps in which no call failed. */
module ControlPlane {
  import opened Text
  import opened Ipv4
  import opened Models
  import opened Firewall
  import opened KernelMirror
  import opened ForwardTags
  import opened NatShares
  import opened Allocation
  import opened PeerAddresses
  import opened Boot
  import opened Packets
  import Database
  import Kernel
  import IpTables

  datatype Reply = Success | Warning | NotFound | Conflict | Unprocessable | ServerError

  class ControlPlane {
    const db: Database.Database
    const kernel: Kernel.Kernel
    const fw: IpTables.IpTables
    const serverPort: int
    /** The rules other programs had in the chains before this one started. */
    ghost const base: Chains

    constructor (db: Database.Database, kernel: Kernel.Kernel, fw: IpTables.IpTables, serverPort: int)
      ensures this.db == db && this.kernel == kernel && this.fw == fw && this.serverPort == serverPort
              && base == fw.chains
    {
      this.db, this.kernel, this.fw, this.serverPort := db, kernel, fw, serverPort;
      base := fw.chains;
    }

    ghost predicate Valid()
      reads db, kernel, fw
    {
      db.Valid() && fw.Valid() && TagSafe(db.t, fw.chains) && Routed(fw.forwarding, fw.chains, base)
    }

    ghost predicate Mirrors()
      reads db, kernel
    {
      Mirror(db.t, kernel.devices)
    }

    ghost predicate NatIsExact()
      reads db, fw
    {
      NatExact(db.t, fw.chains, base)
    }

    ghost predicate IsTidy()
      reads db
    {
      Tidy(db.t, base)
    }

    /** No call has failed since. */
    twostate predicate Clean()
      reads db, kernel, fw
    {
      db.failures == old(db.failures) && kernel.failures == old(kernel.failures) && fw.failures == old(fw.failures)
    }

    twostate predicate Monotone()
      reads db, kernel, fw
    {
      && db.failures >= old(db.failures) && kernel.failures >= old(kernel.failures) && fw.failures >= old(fw.failures)
      && fw.uplink == old(fw.uplink)
    }

    /** What every handler keeps: safety always, exactness unless a call failed. */
    twostate predicate Kept()
      reads db, kernel, fw
    {
      && Valid() && Monotone()
      && old(db.t.nextId) <= db.t.nextId <= old(db.t.nextId) + 1
      && (Clean() && old(Mirrors()) ==> Mirrors())
      && (Clean() && old(NatIsExact()) && old(IsTidy()) && IsTidy() ==> NatIsExact())
    }

    /** No device but interface i's changed, and none at all if i is not up; and unless a call
        failed or the devices were off before, only key's entry may differ. */
    twostate predicate OneEntry(i: Interface, key: Key)
      reads db, kernel, fw
    {
      && OtherDevices(old(kernel.devices), kernel.devices, i.name)
      && (!Up(i) ==> kernel.devices == old(kernel.devices))
      && (Clean() && old(Mirrors()) ==> OnlyEntry(old(kernel.devices), kernel.devices, i.name, key))
    }

    /** Other interfaces' devices, sessions included, and other forwards' tagged rules are as
        they were; if the handler found nothing to do, everything on the host is. */
    twostate predicate OthersUntouched(id: nat, found: bool)
      reads db, kernel, fw
    {
      if found then
        id in old(db.t.ifaces) && OtherDevices(old(kernel.devices), kernel.devices, old(db.t.ifaces)[id].name)
        && OtherTags(old(fw.chains), fw.chains, ForwardsOfInterface(old(db.t), id))
      else kernel.devices == old(kernel.devices) && fw.chains == old(fw.chains)
    }

    // --- Port-forward helpers ---

    /** RemovePortForward on the rules of one current row. */
    method RemoveForward(f: nat, name: string)
      requires Valid() && f in db.t.forwards && db.t.forwards[f].iface in db.t.ifaces
      requires db.t.ifaces[db.t.forwards[f].iface].name == name
      modifies fw`chains
      ensures Valid() && NoTag(fw.chains, f) && OnlyTags(old(fw.chains), fw.chains, {f})
    {
      ForwardRemoved(db.t, fw.chains, f);
      RoutedAfterDrops(fw.forwarding, fw.chains, PfRules(f, db.t.forwards[f], name), base);
      fw.RemovePortForward(f, db.t.forwards[f], name);
    }

    /** removePortForwardRules: the rules of the given rows go, the rows stay. The rows come
        in no particular order. */
    method RemoveForwardRules(ids: set<nat>, name: string)
      requires Valid() && ForwardsOn(db.t, ids, name)
      modifies fw`chains
      ensures Valid() && OnlyTags(old(fw.chains), fw.chains, ids) && NoTags(fw.chains, ids)
    {
      var todo := ids;
      while todo != {}
        invariant todo <= ids && Valid()
        invariant OnlyTags(old(fw.chains), fw.chains, ids) && NoTags(fw.chains, ids - todo)
        decreases todo
      {
        ghost var before := fw.chains;
        var f :| f in todo;
        RemoveForward(f, name);
        OnlyTagsGrow(old(fw.chains), before, fw.chains, ids, f);
        NoTagsGrow(before, fw.chains, ids - todo, f);
        todo := todo - {f};
        assert ids - todo == (ids - (todo + {f})) + {f};
      }
      assert ids - todo == ids;
    }

    /** ApplyPortForward on the rules of one current row. */
    method ApplyForward(f: nat, name: string) returns (ok: bool)
      requires Valid() && f in db.t.forwards && db.t.forwards[f].iface in db.t.ifaces
      requires db.t.ifaces[db.t.forwards[f].iface].name == name
      modifies fw
      ensures Valid() && Monotone() && OnlyTags(old(fw.chains), fw.chains, {f})
      ensures ok <==> fw.failures == old(fw.failures)
      ensures ok ==> FullyForwarded(db.t, fw.chains, f)
      ensures old(FullyForwarded(db.t, fw.chains, f)) ==> fw.chains == old(fw.chains)
    {
      ghost var before := fw.chains;
      ok := fw.ApplyPortForward(f, db.t.forwards[f], name);
      ForwardApplied(db.t, before, fw.chains, f, name, ok);
      if FullyForwarded(db.t, before, f) {
        ForwardUnchanged(db.t, before, fw.chains, f, name);
      }
    }

    /** reapplyPortForwards: the rules of the given rows are installed; a failure is logged. */
    method ReapplyForwards(ids: set<nat>, name: string)
      requires Valid() && ForwardsOn(db.t, ids, name)
      modifies fw
      ensures Valid() && Monotone() && OnlyTags(old(fw.chains), fw.chains, ids)
      ensures fw.failures == old(fw.failures) ==> AllForwarded(db.t, fw.chains, ids)
      ensures old(AllForwarded(db.t, fw.chains, ids)) ==> fw.chains == old(fw.chains)
    {
      hide Routed, Database.Integrity, TagSafe, OnlyTags, AllForwarded, FullyForwarded;
      var todo := ids;
      DueStart(db.t, fw.chains, ids);
      assert ids - todo == {};
      while todo != {}
        invariant todo <= ids && Valid() && Monotone()
        invariant OnlyTags(old(fw.chains), fw.chains, ids)
        invariant fw.failures == old(fw.failures) ==> AllForwarded(db.t, fw.chains, ids - todo)
        invariant old(AllForwarded(db.t, fw.chains, ids)) ==> fw.chains == old(fw.chains)
        decreases todo
      {
        ghost var before, done := fw.chains, ids - todo;
        var f :| f in todo;
        var ok := ApplyForward(f, name);
        OnlyTagsGrow(old(fw.chains), before, fw.chains, ids, f);
        DueGrow(db.t, before, fw.chains, ids, done, f);
        todo := todo - {f};
        assert ids - todo == done + {f};
      }
      assert ids - todo == ids;
    }

    /** purgePortForwards: rules and rows of the given forwards; a failed row delete is logged. */
    method PurgeForwards(ids: set<nat>, name: string)
      requires Valid() && ForwardsOn(db.t, ids, name)
      modifies db, fw`chains
      ensures Valid() && Monotone() && OnlyTags(old(fw.chains), fw.chains, ids) && NoTags(fw.chains, ids)
      ensures OnlyForwardsDropped(old(db.t), db.t, ids)
      ensures db.failures == old(db.failures) ==> forall f :: f in ids ==> f !in db.t.forwards
    {
      hide Routed, Database.Integrity, Mirror, NatExact, TagSafe, Tidy, SyncFits;
      var todo := ids;
      while todo != {}
        invariant todo <= ids && Valid() && Monotone() && ForwardsOn(db.t, todo, name)
        invariant OnlyTags(old(fw.chains), fw.chains, ids) && NoTags(fw.chains, ids - todo)
        invariant OnlyForwardsDropped(old(db.t), db.t, ids)
        invariant db.failures == old(db.failures) ==> forall f :: f in ids - todo ==> f !in db.t.forwards
        decreases todo
      {
        ghost var before := fw.chains;
        var f :| f in todo;
        RemoveForward(f, name);
        OnlyTagsGrow(old(fw.chains), before, fw.chains, ids, f);
        NoTagsGrow(before, fw.chains, ids - todo, f);
        var _ := DropForwardRow(f);
        todo := todo - {f};
        assert ids - todo == (ids - (todo + {f})) + {f};
      }
      assert ids - todo == ids;
    }

    /** Deleting a forward's row once its rules are gone. */
    method DropForwardRow(f: nat) returns (ok: bool)
      requires Valid() && f in db.t.forwards && NoTag(fw.chains, f)
      modifies db
      ensures Valid() && Monotone()
      ensures db.t == if ok then Database.DropForward(old(db.t), f) else old(db.t)
      ensures ok <==> db.failures == old(db.failures)
    {
      DropForwardSafe(db.t, fw.chains, f);
      ok := db.Write(Database.DropForward(db.t, f));
    }

    // --- reconcile and syncPeer ---

    /** Preload("Peers"): the interface's peer rows that are not trashed, in some order. */
    method LivePeers(id: nat) returns (rows: seq<Peer>)
      ensures RowsOf(db.t, id, rows)
    {
      var todo := set p | p in db.t.peers && db.t.peers[p].iface == id && !db.t.peers[p].trashed;
      ghost var all := todo;
      rows := [];
      while todo != {}
        invariant todo <= all
        invariant forall p :: p in all && p !in todo ==> db.t.peers[p] in rows
        invariant forall r :: r in rows ==> exists p :: p in all && db.t.peers[p] == r
        decreases todo
      {
        var p :| p in todo;
        rows := rows + [db.t.peers[p]];
        todo := todo - {p};
      }
    }

    lemma RoutedAfterTeardown(i: Interface)
      requires Valid()
      ensures var egress := IpTables.EgressFor(i.egress, fw.uplink);
              Routed(fw.forwarding, IpTables.TornDown(fw.chains, i.address, i.name, egress), base)
    {
      var rs := NatRules(SubnetOf(i.address), i.name, IpTables.EgressFor(i.egress, fw.uplink));
      RoutedAfterDrops(fw.forwarding, fw.chains, rs, base);
    }

    /** applyNAT; an egress that had to be detected is stored. */
    method ApplyNat(id: nat) returns (ok: bool)
      requires Valid() && id in db.t.ifaces && Up(db.t.ifaces[id])
      modifies db, fw
      ensures Valid() && Monotone() && EgressOnly(old(db.t), db.t, id) && SameTags(old(fw.chains), fw.chains)
      ensures ok <==> db.failures == old(db.failures) && fw.failures == old(fw.failures)
      ensures ok ==> NatStep(base, old(fw.chains), fw.chains, old(db.t.ifaces[id]), db.t.ifaces[id])
      ensures ok && Natted(db.t.ifaces[id]) ==> db.t.ifaces[id].egress != ""
      ensures ok && Natted(db.t.ifaces[id]) ==>
        db.t.ifaces[id].egress == EgressOf(old(db.t.ifaces)[id], fw.uplink)
      ensures ok && old(NatSettled(fw.chains, db.t.ifaces[id])) ==> fw.chains == old(fw.chains) && db.t == old(db.t)
    {
      var iface := db.t.ifaces[id];
      ghost var before := fw.chains;
      if !iface.masquerade {
        NatStepRemoved(base, before, iface, fw.uplink);
        RoutedAfterTeardown(iface);
        fw.TeardownNat(iface.address, iface.name, iface.egress);
        TagSafeReconciled(db.t, db.t, before, fw.chains, id);
        return true;
      }
      NatStepInstalled(base, before, iface, fw.uplink);
      EgressForTrimmed(iface.egress, fw.uplink);
      EgressChosen(db.t, id, fw.uplink);
      var egress;
      egress, ok := fw.SetupNat(iface.address, iface.name, iface.egress);
      NatInstallKeepsAllTags(before, fw.chains, iface.address, iface.name, egress);
      TagSafeReconciled(db.t, db.t, before, fw.chains, id);
      if ok && egress != iface.egress {
        ok := StoreEgress(id, egress);
      }
    }

    /** The one-column update of the egress. */
    method StoreEgress(id: nat, egress: string) returns (ok: bool)
      requires Valid() && id in db.t.ifaces && Trimmed(egress)
      modifies db
      ensures Valid() && Monotone()
      ensures db.t == if ok then Database.PutInterface(old(db.t), id, old(db.t.ifaces[id]).(egress := egress))
              else old(db.t)
      ensures ok <==> db.failures == old(db.failures)
    {
      var next := Database.PutInterface(db.t, id, db.t.ifaces[id].(egress := egress));
      Database.PutInterfaceKeeps(db.t, id, db.t.ifaces[id].(egress := egress));
      TagSafeSameForwards(db.t, next, fw.chains);
      ok := db.Write(next);
    }

    /** reconcile: the full form. */
    method Reconcile(id: nat) returns (ok: bool)
      requires Valid()
      modifies db, kernel, fw
      ensures Valid() && Monotone() && EgressOnly(old(db.t), db.t, id) && SameTags(old(fw.chains), fw.chains)
      ensures ok <==> Database.Live(old(db.t), id) && Clean()
      ensures if id in old(db.t.ifaces)
              then OtherDevices(old(kernel.devices), kernel.devices, old(db.t.ifaces)[id].name)
              else kernel.devices == old(kernel.devices)
      ensures ok ==> DevicesReconciled(db.t, old(kernel.devices), kernel.devices, id)
      ensures ok ==> NatStep(base, old(fw.chains), fw.chains, old(db.t.ifaces[id]), db.t.ifaces[id])
      ensures ok && Natted(db.t.ifaces[id]) ==> db.t.ifaces[id].egress != ""
      ensures ok && Natted(db.t.ifaces[id]) ==>
        db.t.ifaces[id].egress == EgressOf(old(db.t.ifaces)[id], fw.uplink)
      ensures ok && old(NatSettled(fw.chains, db.t.ifaces[id])) ==> fw.chains == old(fw.chains) && db.t == old(db.t)
    {
      if id !in db.t.ifaces || db.t.ifaces[id].trashed {
        return false;
      }
      var iface := db.t.ifaces[id];
      if !iface.enabled {
        ghost var before := fw.chains;
        NatStepRemoved(base, before, iface, fw.uplink);
        RoutedAfterTeardown(iface);
        fw.TeardownNat(iface.address, iface.name, iface.egress);
        TagSafeReconciled(db.t, db.t, before, fw.chains, id);
        OtherDevicesGone(kernel.devices, iface.name);
        ok := kernel.RemoveLink(iface.name);
        return;
      }
      ok := ConfigureInFull(id);
      if ok {
        ghost var t := db.t;
        ok := ApplyNat(id);
        if ok {
          ReconciledMoves(t, db.t, old(kernel.devices), kernel.devices, id);
        }
      }
    }

    /** The kernel half of reconcile. */
    method ConfigureInFull(id: nat) returns (ok: bool)
      requires Valid() && id in db.t.ifaces && Up(db.t.ifaces[id])
      modifies kernel
      ensures Monotone()
      ensures ok <==> kernel.failures == old(kernel.failures)
      ensures OtherDevices(old(kernel.devices), kernel.devices, db.t.ifaces[id].name)
      ensures ok ==> DevicesReconciled(db.t, old(kernel.devices), kernel.devices, id)
    {
      var iface := db.t.ifaces[id];
      OtherDevicesSelf(kernel.devices, iface.name);
      var rows := LivePeers(id);
      RebuiltInFull(db.t, kernel.devices, id, rows);
      hide Routed, Database.Integrity, RowsOf, DevicesReconciled, OtherDevices, TagSafe;
      ok := kernel.EnsureLink(iface.name, iface.address, iface.mtu);
      if !ok {
        return;
      }
      ok := kernel.ConfigureDevice(iface, rows);
    }

    /** syncPeer: the incremental form, called after the row of peer p changed. */
    method SyncPeer(id: nat, row: Peer, remove: bool, ghost a: Tables, ghost p: nat) returns (ok: bool)
      requires Valid() && Database.Integrity(a) && SyncFits(a, db.t, id, p, row, remove)
      modifies kernel
      ensures Monotone()
      ensures ok <==> Database.Live(db.t, id) && kernel.failures == old(kernel.failures)
      ensures OtherDevices(old(kernel.devices), kernel.devices, db.t.ifaces[id].name)
      ensures !Up(db.t.ifaces[id]) ==> kernel.devices == old(kernel.devices)
      ensures kernel.failures == old(kernel.failures) && Mirror(a, old(kernel.devices)) ==>
        Mirror(db.t, kernel.devices)
        && OnlyEntry(old(kernel.devices), kernel.devices, db.t.ifaces[id].name, row.publicKey)
    {
      ok := PushPeer(id, row, remove);
      DevicesSelf(kernel.devices, db.t.ifaces[id].name, row.publicKey);
      if kernel.failures == old(kernel.failures) && Mirror(a, old(kernel.devices)) {
        SyncedMirror(a, db.t, old(kernel.devices), kernel.devices, id, p, row, remove);
      }
    }

    method PushPeer(id: nat, row: Peer, remove: bool) returns (ok: bool)
      requires id in db.t.ifaces
      modifies kernel
      ensures Monotone()
      ensures ok <==> Database.Live(db.t, id) && kernel.failures == old(kernel.failures)
      ensures OtherDevices(old(kernel.devices), kernel.devices, db.t.ifaces[id].name)
      ensures kernel.failures == old(kernel.failures) || !Up(db.t.ifaces[id]) ==>
        kernel.devices == if Up(db.t.ifaces[id]) then Synced(old(kernel.devices), db.t.ifaces[id], row, remove)
          else old(kernel.devices)
    {
      if db.t.ifaces[id].trashed {
        return false;
      }
      var iface := db.t.ifaces[id];
      if !iface.enabled {
        return true;
      }
      ok := kernel.EnsureLink(iface.name, iface.address, iface.mtu);
      if !ok {
        return;
      }
      if remove || !row.enabled {
        ok := kernel.RemovePeer(iface.name, row.publicKey);
      } else {
        ok := kernel.ConfigurePeer(iface.name, row);
      }
    }

    // --- Peers ---

    /** The stored row of a created peer: the defaults filled in, and the address either the
        chosen one or the least no live peer has. */
    static ghost predicate Created(a: Tables, b: Tables, iface: nat, row: Peer, chosen: Option<Address>) {
      && iface in a.ifaces && a.nextId in b.peers
      && b == Database.AddPeer(a, Database.StoredPeer(row.(ip := b.peers[a.nextId].ip)))
      && ValidateIPInCIDR(b.peers[a.nextId].ip, a.ifaces[iface].address.ip, a.ifaces[iface].address.prefix) == Fits
      && (chosen.Some? ==> b.peers[a.nextId].ip == chosen.value)
      && (chosen.None? ==> LeastAssignable(a, iface, b.peers[a.nextId].ip))
    }

    /** The allocation inside Create: the live peers' addresses are the taken ones. */
    method NextAddress(iface: nat) returns (next: Option<Address>)
      requires iface in db.t.ifaces
      requires db.t.ifaces[iface].address.prefix == 0 ==> exists a: Address :: Assignable(db.t, iface, a)
      ensures next.None? <==> forall a: Address :: !Assignable(db.t, iface, a)
      ensures next.Some? ==> LeastAssignable(db.t, iface, next.value)
    {
      var address := db.t.ifaces[iface].address;
      var rows := LivePeers(iface);
      var taken: seq<string> := [];
      for i := 0 to |rows|
        invariant TextsOf(rows[..i], taken)
      {
        taken := taken + [Dotted(rows[i].ip)];
      }
      assert rows[..|rows|] == rows;
      forall a: Address
        ensures Free(address.ip, address.prefix, taken, a) <==> Assignable(db.t, iface, a)
      {
        FreeIsAssignable(db.t, iface, rows, taken, a);
      }
      next := NextFreeIP(address.ip, address.prefix, taken);
    }

    /** The next address is a, but the key or a itself is taken; a only by a trashed peer. */
    static ghost predicate NextCollides(t: Tables, iface: nat, key: Key, a: Address)
      requires iface in t.ifaces
    {
      LeastAssignable(t, iface, a) && (Database.KeyTaken(t, key) || TrashedIp(t, iface, a))
    }

    /** There is no address to give: the chosen one does not fit, or none is assignable. */
    static ghost predicate NoAddress(t: Tables, iface: nat, chosen: Option<Address>)
      requires iface in t.ifaces
    {
      var address := t.ifaces[iface].address;
      if chosen.Some? then ValidateIPInCIDR(chosen.value, address.ip, address.prefix) != Fits
      else forall a: Address :: !Assignable(t, iface, a)
    }

    /** There is one, but it or the key is taken; an allocated one only by a trashed peer. */
    static ghost predicate Collides(t: Tables, iface: nat, key: Key, chosen: Option<Address>)
      requires iface in t.ifaces
    {
      if chosen.Some? then
        !NoAddress(t, iface, chosen) && (Database.KeyTaken(t, key) || Database.IpTaken(t, iface, chosen.value))
      else exists a: Address :: NextCollides(t, iface, key, a)
    }

    /** So an automatic allocation can collide although addresses are left. */
    static lemma AllocationCollides()
      ensures Database.Integrity(OneTrashedPeer()) && Collides(OneTrashedPeer(), 1, "new", None)
    {
      OneTrashedPeerIsSound();
      NextIsTrashed();
      assert NextCollides(OneTrashedPeer(), 1, "new", [10, 8, 0, 2]);
    }

    /** The address Create settles on, or the reply that ends the request. */
    method ChooseAddress(iface: nat, key: Key, chosen: Option<Address>) returns (ip: Address, reply: Reply)
      requires iface in db.t.ifaces
      requires chosen.None? && db.t.ifaces[iface].address.prefix == 0
               ==> exists a: Address :: Assignable(db.t, iface, a)
      ensures reply.Success? ==>
        && ValidateIPInCIDR(ip, db.t.ifaces[iface].address.ip, db.t.ifaces[iface].address.prefix) == Fits
        && (chosen.Some? ==> ip == chosen.value) && (chosen.None? ==> LeastAssignable(db.t, iface, ip))
        && !Database.KeyTaken(db.t, key) && !Database.IpTaken(db.t, iface, ip)
      ensures reply.Success? || reply.Unprocessable? || reply.Conflict?
      ensures reply.Unprocessable? <==> NoAddress(db.t, iface, chosen)
      ensures reply.Conflict? <==> Collides(db.t, iface, key, chosen)
    {
      hide Assignable, Candidate, ValidateIPInCIDR, Database.KeyTaken, Database.IpTaken, TrashedIp;
      var address := db.t.ifaces[iface].address;
      ip := address.ip;
      if chosen.Some? {
        ip := chosen.value;
      } else {
        var next := NextAddress(iface);
        if next.None? {
          return ip, Unprocessable;
        }
        ip := next.value;
        LeastIsTheOne(db.t, iface, ip);
        assert NextCollides(db.t, iface, key, ip)
               <==> Database.KeyTaken(db.t, key) || Database.IpTaken(db.t, iface, ip);
      }
      if ValidateIPInCIDR(ip, address.ip, address.prefix) != Fits {
        return ip, Unprocessable;
      }
      if Database.KeyTaken(db.t, key) || Database.IpTaken(db.t, iface, ip) {
        return ip, Conflict;
      }
      return ip, Success;
    }

    /** Peer Create. Without a chosen address the next free one is allocated. */
    method CreatePeer(iface: nat, row: Peer, chosen: Option<Address>) returns (reply: Reply)
      requires Valid() && row.iface == iface
      requires chosen.None? && iface in db.t.ifaces && db.t.ifaces[iface].address.prefix == 0
        ==> exists a: Address :: Assignable(db.t, iface, a)
      modifies db, kernel
      ensures Kept()
      ensures reply.Success? || reply.Warning? ==> Created(old(db.t), db.t, iface, row, chosen)
      ensures !(reply.Success? || reply.Warning?) ==> db.t == old(db.t)
      ensures reply.NotFound? <==> !Database.Live(old(db.t), iface)
      ensures reply.Unprocessable? <==> Database.Live(old(db.t), iface) && NoAddress(old(db.t), iface, chosen)
      ensures reply.Conflict? <==> Database.Live(old(db.t), iface) && Collides(old(db.t), iface, row.publicKey, chosen)
      ensures Clean() ==> !reply.ServerError? && !reply.Warning?
      ensures reply.Success? || reply.Warning? ==> OneEntry(old(db.t.ifaces)[iface], row.publicKey)
      ensures Clean() && old(Mirrors()) && reply.Success? && old(db.t.ifaces)[iface].enabled ==>
        && old(db.t.nextId) in db.t.peers
        && Shows(kernel.devices, old(db.t.ifaces)[iface].name, row.publicKey, true, db.t.peers[old(db.t.nextId)].ip,
                 row.presharedKey, if row.keepalive == 0 then 25 else row.keepalive)
      ensures !(reply.Success? || reply.Warning?) ==> kernel.devices == old(kernel.devices)
    {
      hide Routed, Database.Integrity, Mirror, NatExact, TagSafe, Tidy, NoAddress, Collides, Created, OtherDevices,
           OnlyEntry, Shows, LeastAssignable, ValidateIPInCIDR, Database.KeyTaken, Database.IpTaken;
      if iface !in db.t.ifaces || db.t.ifaces[iface].trashed {
        return NotFound;
      }
      var ip;
      ip, reply := ChooseAddress(iface, row.publicKey, chosen);
      if reply.Success? {
        var stored := row.(ip := ip);
        ghost var t := db.t;
        reply := StorePeer(stored);
        if reply.Success? || reply.Warning? {
          CreatedIs(t, db.t, iface, row, chosen, ip);
        }
      }
    }

    /** Create once the address is chosen: the row, then its entry. */
    method StorePeer(row: Peer) returns (reply: Reply)
      requires Valid() && Database.Live(db.t, row.iface)
      requires !Database.KeyTaken(db.t, row.publicKey) && !Database.IpTaken(db.t, row.iface, row.ip)
      modifies db, kernel
      ensures Kept()
      ensures reply.Success? || reply.Warning? || reply.ServerError?
      ensures Clean() ==> reply.Success?
      ensures reply.ServerError? ==> db.t == old(db.t) && kernel.devices == old(kernel.devices)
      ensures reply.Success? || reply.Warning? ==>
        && db.t == Database.AddPeer(old(db.t), Database.StoredPeer(row))
        && OneEntry(old(db.t.ifaces)[row.iface], row.publicKey)
      ensures Clean() && old(Mirrors()) && old(db.t.ifaces)[row.iface].enabled ==>
        Shows(kernel.devices, old(db.t.ifaces)[row.iface].name, row.publicKey, true, row.ip,
              row.presharedKey, if row.keepalive == 0 then 25 else row.keepalive)
    {
      hide Routed, Database.Integrity, Mirror, NatExact, TagSafe, Tidy, SyncFits, OtherDevices, OnlyEntry, Shows;
      ghost var t := db.t;
      var out, id := db.InsertPeer(row);
      if !out.Done? {
        return ServerError;
      }
      NewPeerFits(t, row);
      TagSafeSameForwards(t, db.t, fw.chains);
      if NatExact(t, fw.chains, base) {
        NatExactMoves(t, db.t, fw.chains, fw.chains, base);
      }
      var ok := SyncPeer(row.iface, db.t.peers[id], false, t, id);
      reply := if ok then Success else Warning;
      if Mirror(db.t, kernel.devices) && db.t.ifaces[row.iface].enabled {
        PeerShown(db.t, kernel.devices, id);
      }
    }

    static lemma CreatedIs(a: Tables, b: Tables, iface: nat, row: Peer, chosen: Option<Address>, ip: Address)
      requires iface in a.ifaces && b == Database.AddPeer(a, Database.StoredPeer(row.(ip := ip)))
      requires ValidateIPInCIDR(ip, a.ifaces[iface].address.ip, a.ifaces[iface].address.prefix) == Fits
      requires (chosen.Some? ==> ip == chosen.value) && (chosen.None? ==> LeastAssignable(a, iface, ip))
      ensures Created(a, b, iface, row, chosen) && a.nextId in b.peers && b.peers[a.nextId].ip == ip
    {
      hide LeastAssignable, ValidateIPInCIDR;
    }

    /** A single write to the peers, with no effect on the interfaces and forwards. */
    method WritePeers(next: Tables) returns (ok: bool)
      requires Valid() && Database.Integrity(next) && next.ifaces == db.t.ifaces && next.forwards == db.t.forwards
      modifies db
      ensures Valid() && Monotone()
      ensures db.t == if ok then next else old(db.t)
      ensures ok <==> db.failures == old(db.failures)
    {
      TagSafeSameForwards(db.t, next, fw.chains);
      ok := db.Write(next);
    }

    static function UpdatedPeer(row: Peer, name: string, keepalive: int, enabled: Option<bool>): Peer {
      row.(name := name, keepalive := keepalive, enabled := if enabled.Some? then enabled.value else row.enabled)
    }

    /** Peer Update. */
    method UpdatePeer(id: nat, name: string, keepalive: int, enabled: Option<bool>) returns (reply: Reply)
      requires Valid()
      modifies db, kernel
      ensures Kept()
      ensures !reply.Conflict? && !reply.Unprocessable?
      ensures reply.NotFound? <==> !(id in old(db.t.peers) && !old(db.t.peers)[id].trashed)
      ensures db.t == if reply.Success? || reply.Warning?
                      then Database.PutPeer(old(db.t), id, UpdatedPeer(old(db.t.peers)[id], name, keepalive, enabled))
                      else old(db.t)
      ensures Clean() && !reply.NotFound? ==> reply.Success?
      ensures reply.Success? || reply.Warning? ==>
        OneEntry(old(db.t.ifaces[db.t.peers[id].iface]), old(db.t.peers[id].publicKey))
      ensures !(reply.Success? || reply.Warning?) ==> kernel.devices == old(kernel.devices)
      ensures reply.Success? || reply.Warning? ==> db.t.peers[id].name == name && db.t.peers[id].keepalive == keepalive
      ensures reply.Success? || reply.Warning? ==>
        (db.t.peers[id].enabled <==> enabled == Some(true) || (enabled.None? && old(db.t.peers)[id].enabled))
      ensures Clean() && old(Mirrors()) && reply.Success? && old(Up(db.t.ifaces[db.t.peers[id].iface])) ==>
        var was := old(db.t.peers)[id];
        Shows(kernel.devices, old(db.t.ifaces[db.t.peers[id].iface]).name, was.publicKey,
              enabled == Some(true) || (enabled.None? && was.enabled), was.ip, was.presharedKey, keepalive)
    {
      hide Routed, Database.Integrity, Mirror, NatExact, TagSafe, Tidy, SyncFits, OtherDevices, OnlyEntry, Shows;
      if id !in db.t.peers || db.t.peers[id].trashed {
        return NotFound;
      }
      ghost var t := db.t;
      var row := UpdatedPeer(db.t.peers[id], name, keepalive, enabled);
      Database.LiveUnderLive(db.t, id);
      Database.PutPeerKeeps(db.t, id, row);
      PutPeerFits(db.t, id, row);
      var ok := WritePeers(Database.PutPeer(db.t, id, row));
      if !ok {
        return ServerError;
      }
      if NatExact(t, fw.chains, base) {
        NatExactMoves(t, db.t, fw.chains, fw.chains, base);
      }
      ok := SyncPeer(row.iface, row, false, t, id);
      reply := if ok then Success else Warning;
      if Mirror(db.t, kernel.devices) && Up(db.t.ifaces[row.iface]) {
        PeerShown(db.t, kernel.devices, id);
      }
    }

    /** Peer Delete: rules first, then the row to the trash, then the device. */
    method DeletePeer(id: nat) returns (reply: Reply)
      requires Valid()
      modifies db, kernel, fw
      ensures Kept()
      ensures !reply.Conflict? && !reply.Unprocessable?
      ensures reply.NotFound? <==> !(id in old(db.t.peers) && !old(db.t.peers)[id].trashed)
      ensures db.t == if reply.Success? || reply.Warning?
                      then Database.PutPeer(old(db.t), id, old(db.t.peers)[id].(trashed := true)) else old(db.t)
      ensures Clean() && !reply.NotFound? ==> reply.Success?
      ensures !reply.NotFound? ==> NoTags(fw.chains, ForwardsOfPeer(old(db.t), id))
      ensures OnlyTags(old(fw.chains), fw.chains, ForwardsOfPeer(old(db.t), id))
      ensures reply.Success? || reply.Warning? ==>
        OneEntry(old(db.t.ifaces[db.t.peers[id].iface]), old(db.t.peers[id].publicKey))
      ensures !(reply.Success? || reply.Warning?) ==> kernel.devices == old(kernel.devices)
      ensures Clean() && old(Mirrors()) && reply.Success? && old(Up(db.t.ifaces[db.t.peers[id].iface])) ==>
        var was := old(db.t.peers)[id];
        Shows(kernel.devices, old(db.t.ifaces[db.t.peers[id].iface]).name, was.publicKey, false,
              was.ip, was.presharedKey, was.keepalive)
    {
      hide Routed, Database.Integrity, Mirror, NatExact, TagSafe, Tidy, SyncFits, OtherDevices, OnlyEntry, Shows;
      if id !in db.t.peers || db.t.peers[id].trashed {
        return NotFound;
      }
      ghost var t := db.t;
      var row := db.t.peers[id];
      Database.LiveUnderLive(db.t, id);
      PeerForwardsOn(db.t, id);
      RemoveForwardRules(ForwardsOfPeer(db.t, id), db.t.ifaces[row.iface].name);
      Database.TrashPeerKeeps(db.t, id);
      TrashPeerFits(db.t, id);
      var ok := WritePeers(Database.PutPeer(db.t, id, row.(trashed := true)));
      if ok {
        ok := SyncPeer(row.iface, row, true, t, id);
        reply := if ok then Success else Warning;
        if Mirror(db.t, kernel.devices) && Up(db.t.ifaces[row.iface]) {
          PeerShown(db.t, kernel.devices, id);
        }
      } else {
        reply := ServerError;
      }
      if NatExact(t, old(fw.chains), base) {
        NatExactMoves(t, db.t, old(fw.chains), fw.chains, base);
      }
    }

    /** Peer Restore; refused while the parent interface is in the trash. */
    method RestorePeer(id: nat) returns (reply: Reply)
      requires Valid()
      modifies db, kernel, fw
      ensures Kept()
      ensures !reply.Unprocessable?
      ensures reply.NotFound? <==> id !in old(db.t.peers)
      ensures reply.Conflict? <==> id in old(db.t.peers) && old(db.t.peers)[id].trashed
                                   && !Database.Live(old(db.t), old(db.t.peers)[id].iface)
      ensures db.t == if reply.Success? || reply.Warning?
                      then Database.PutPeer(old(db.t), id, old(db.t.peers)[id].(trashed := false)) else old(db.t)
      ensures OnlyTags(old(fw.chains), fw.chains, ForwardsOfPeer(old(db.t), id))
      ensures Clean() && !reply.NotFound? && !reply.Conflict? ==> reply.Success?
      ensures Clean() && reply.Success? && old(db.t.peers)[id].trashed
        ==> AllForwarded(db.t, fw.chains, EnabledForwards(db.t, ForwardsOfPeer(db.t, id)))
      ensures reply.Success? || reply.Warning? ==>
        OneEntry(old(db.t.ifaces[db.t.peers[id].iface]), old(db.t.peers[id].publicKey))
      ensures !(reply.Success? || reply.Warning?) || !old(db.t.peers)[id].trashed ==>
        kernel.devices == old(kernel.devices) && fw.chains == old(fw.chains)
      ensures Clean() && old(Mirrors()) && reply.Success? && old(Up(db.t.ifaces[db.t.peers[id].iface])) ==>
        var was := old(db.t.peers)[id];
        Shows(kernel.devices, old(db.t.ifaces[db.t.peers[id].iface]).name, was.publicKey, was.enabled,
              was.ip, was.presharedKey, was.keepalive)
    {
      hide Routed, Database.Integrity, Mirror, NatExact, TagSafe, Tidy, SyncFits, OnlyTags, AllForwarded, OnlyEntry,
           OtherDevices, Shows;
      OnlyTagsSelf(fw.chains, ForwardsOfPeer(db.t, id));
      if id !in db.t.peers {
        return NotFound;
      }
      var row := db.t.peers[id];
      Database.ParentExists(db.t, id);
      if !row.trashed {
        assert db.t.peers[id := row.(trashed := false)] == db.t.peers;
        DevicesSelf(kernel.devices, db.t.ifaces[row.iface].name, row.publicKey);
        if Mirror(db.t, kernel.devices) && Up(db.t.ifaces[row.iface]) {
          PeerShown(db.t, kernel.devices, id);
        }
        return Success;
      }
      if db.t.ifaces[row.iface].trashed {
        return Conflict;
      }
      ghost var t := db.t;
      row := row.(trashed := false);
      Database.RestorePeerIff(db.t, id);
      PutPeerFits(db.t, id, row);
      var ok := WritePeers(Database.PutPeer(db.t, id, row));
      if !ok {
        return ServerError;
      }
      if NatExact(t, fw.chains, base) {
        NatExactMoves(t, db.t, fw.chains, fw.chains, base);
      }
      ok := SyncPeer(row.iface, row, false, t, id);
      if !ok {
        return Warning;
      }
      if Mirror(db.t, kernel.devices) && Up(db.t.ifaces[row.iface]) {
        PeerShown(db.t, kernel.devices, id);
      }
      PeerForwardsOn(db.t, id);
      ghost var before := fw.chains;
      var ids := EnabledForwards(db.t, ForwardsOfPeer(db.t, id));
      ReapplyForwards(ids, db.t.ifaces[row.iface].name);
      NatExactTags(db.t, before, fw.chains, base, ids);
      OnlyTagsMore(before, fw.chains, ids, ForwardsOfPeer(t, id));
      reply := Success;
    }

    /** Peer Purge: rules and rows of its forwards, then its row, then the device. */
    method PurgePeer(id: nat) returns (reply: Reply)
      requires Valid()
      modifies db, kernel, fw
      ensures Kept()
      ensures !reply.Conflict? && !reply.Unprocessable?
      ensures reply.NotFound? <==> id !in old(db.t.peers)
      ensures reply.NotFound? ==> db.t == old(db.t)
      ensures OnlyForwardsDropped(old(db.t).(peers := db.t.peers), db.t, ForwardsOfPeer(old(db.t), id))
      ensures db.t.peers == if reply.Success? || reply.Warning? then old(db.t.peers) - {id} else old(db.t.peers)
      ensures !reply.NotFound? ==> NoTags(fw.chains, ForwardsOfPeer(old(db.t), id))
      ensures OnlyTags(old(fw.chains), fw.chains, ForwardsOfPeer(old(db.t), id))
      ensures Clean() && !reply.NotFound? ==> ForwardsOfPeer(db.t, id) == {} && id !in db.t.peers
      ensures Clean() && !reply.NotFound? ==>
        if Database.Live(old(db.t), old(db.t.peers)[id].iface) then reply.Success? else reply.Warning?
      ensures reply.Success? || reply.Warning? ==>
        OneEntry(old(db.t.ifaces[db.t.peers[id].iface]), old(db.t.peers[id].publicKey))
      ensures !(reply.Success? || reply.Warning?) ==> kernel.devices == old(kernel.devices)
      ensures Clean() && old(Mirrors()) && reply.Success? && old(Up(db.t.ifaces[db.t.peers[id].iface])) ==>
        var name := old(db.t.ifaces[db.t.peers[id].iface]).name;
        name in kernel.devices && old(db.t.peers)[id].publicKey !in kernel.devices[name].peers
    {
      hide Routed, Database.Integrity, Mirror, NatExact, TagSafe, Tidy, SyncFits, OtherDevices, OnlyEntry, OnlyTags,
           NoTags;
      OnlyTagsSelf(fw.chains, ForwardsOfPeer(db.t, id));
      if id !in db.t.peers {
        return NotFound;
      }
      ghost var t := db.t;
      var row := db.t.peers[id];
      Database.ParentExists(db.t, id);
      PeerForwardsOn(db.t, id);
      PurgeForwards(ForwardsOfPeer(db.t, id), db.t.ifaces[row.iface].name);
      ghost var u := db.t;
      Database.DropPeerKeeps(db.t, id);
      DropPeerFits(db.t, id);
      var ok := WritePeers(Database.DropPeer(db.t, id));
      if ok {
        if Mirror(t, kernel.devices) {
          MirrorSame(t, u, kernel.devices);
        }
        ok := SyncPeer(row.iface, row, true, u, id);
        reply := if ok then Success else Warning;
        if Mirror(db.t, kernel.devices) && Up(db.t.ifaces[row.iface]) {
          Database.KeyGone(t, id);
          KeyNotShown(db.t, kernel.devices, row.iface, row.publicKey);
        }
      } else {
        reply := ServerError;
      }
      OnlyTagsUntagged(old(fw.chains), fw.chains, ForwardsOfPeer(t, id));
      if NatExact(t, old(fw.chains), base) {
        NatExactMoves(t, db.t, old(fw.chains), fw.chains, base);
      }
    }

    // --- Interfaces ---

    /** A single write to one interface row and to peers, with names and forwards unchanged. */
    method WriteInterfaces(next: Tables) returns (ok: bool)
      requires Valid() && Database.Integrity(next) && TagSafe(next, fw.chains)
      modifies db
      ensures Valid() && Monotone()
      ensures db.t == if ok then next else old(db.t)
      ensures ok <==> db.failures == old(db.failures)
    {
      ok := db.Write(next);
    }

    /** Reconciling interface id after its row was inserted or changed from tables t and its
        own NAT rules were out of the chains. */
    method ReconcileChanged(id: nat, name: string, ghost t: Tables) returns (ok: bool)
      requires Valid() && Database.Live(db.t, id) && db.t.ifaces[id].name == name
      requires db.t.ifaces - {id} == t.ifaces - {id}
      modifies db, kernel, fw
      ensures Valid() && Monotone() && EgressOnly(old(db.t), db.t, id) && SameTags(old(fw.chains), fw.chains)
      ensures ok <==> Clean()
      ensures OtherDevices(old(kernel.devices), kernel.devices, name)
      ensures ok ==> DevicesReconciled(db.t, old(kernel.devices), kernel.devices, id)
      ensures ok && Natted(db.t.ifaces[id]) ==>
        db.t.ifaces[id].egress == EgressOf(old(db.t.ifaces)[id], fw.uplink)
      ensures ok && MirrorBut(old(db.t), old(kernel.devices), id, name) ==> Mirrors()
      ensures ok && EgressesKnown(t.ifaces) && NatBag(old(fw.chains), base, Demand(t.ifaces - {id})) && IsTidy()
              ==> NatIsExact()
    {
      hide Routed, Database.Integrity, Mirror, MirrorBut, NatExact, NatBag, TagSafe, Tidy, DevicesReconciled, NatStep,
           OtherDevices;
      ghost var a := db.t;
      ok := Reconcile(id);
      if ok {
        if MirrorBut(a, old(kernel.devices), id, name) {
          MirrorAfterReconcile(a, db.t, old(kernel.devices), kernel.devices, id, name);
        }
        if EgressesKnown(t.ifaces) && NatBag(old(fw.chains), base, Demand(t.ifaces - {id})) && IsTidy() {
          NatAfterReconcile(t, a, db.t, old(fw.chains), fw.chains, base, id);
        }
      }
    }

    /** Interface Create. */
    method CreateInterface(row: Interface) returns (reply: Reply)
      requires Valid() && row.name != ""
      modifies db, kernel, fw
      ensures Kept()
      ensures !reply.NotFound? && !reply.Unprocessable?
      ensures reply.Conflict? <==> Database.NameTaken(old(db.t), row.name)
      ensures Clean() && !reply.Conflict? ==> reply.Success?
      ensures reply.Success? || reply.Warning? ==>
        old(db.t.nextId) in db.t.ifaces
        && db.t == Database.AddInterface(
                     old(db.t), Database.StoredInterface(row).(egress := db.t.ifaces[old(db.t.nextId)].egress))
      ensures !(reply.Success? || reply.Warning?) ==>
        db.t == old(db.t) && kernel.devices == old(kernel.devices) && fw.chains == old(fw.chains)
      ensures SameTags(old(fw.chains), fw.chains) && OtherDevices(old(kernel.devices), kernel.devices, row.name)
      ensures Clean() && old(Mirrors()) && reply.Success? ==>
        && DeviceShows(kernel.devices, row.name, true, row.privateKey, row.listenPort, row.address)
        && kernel.devices[row.name].mtu == (if row.mtu == 0 then 1420 else row.mtu)
      ensures Clean() && old(NatIsExact()) && old(IsTidy()) && IsTidy() && reply.Success? && row.masquerade ==>
        Carries(fw.chains, row.name, row.address, if Trim(row.egress) != "" then Trim(row.egress) else fw.uplink)
    {
      ghost var t := db.t;
      hide *;
      reply := InsertAndReconcile(row);
      if reply.Success? || reply.Warning? {
        RowAfterCreate(t, db.t, row);
        ValidIsSound();
        InterfaceOutcome(db.t, kernel.devices, fw.chains, base, t.nextId);
      }
    }

    static lemma RowAfterCreate(t: Tables, b: Tables, row: Interface)
      requires t.nextId in b.ifaces
      requires b == Database.AddInterface(t, Database.StoredInterface(row).(egress := b.ifaces[t.nextId].egress))
      ensures var stored := b.ifaces[t.nextId];
              && stored.name == row.name && stored.privateKey == row.privateKey && stored.listenPort == row.listenPort
              && stored.address == row.address && Up(stored) && (Natted(stored) <==> row.masquerade)
    {
    }

    /** Create: the insert with its defaults, then the first reconcile. */
    method InsertAndReconcile(row: Interface) returns (reply: Reply)
      requires Valid() && row.name != ""
      modifies db, kernel, fw
      ensures Kept()
      ensures !reply.NotFound? && !reply.Unprocessable?
      ensures reply.Conflict? <==> Database.NameTaken(old(db.t), row.name)
      ensures Clean() && !reply.Conflict? ==> reply.Success?
      ensures reply.Success? || reply.Warning? ==>
        old(db.t.nextId) in db.t.ifaces
        && db.t == Database.AddInterface(
                     old(db.t), Database.StoredInterface(row).(egress := db.t.ifaces[old(db.t.nextId)].egress))
      ensures !(reply.Success? || reply.Warning?) ==>
        db.t == old(db.t) && kernel.devices == old(kernel.devices) && fw.chains == old(fw.chains)
      ensures SameTags(old(fw.chains), fw.chains) && OtherDevices(old(kernel.devices), kernel.devices, row.name)
      ensures Clean() && old(Mirrors()) && reply.Success? ==>
        row.name in kernel.devices && kernel.devices[row.name].mtu == (if row.mtu == 0 then 1420 else row.mtu)
      ensures reply.Success? && Natted(db.t.ifaces[old(db.t.nextId)]) ==>
        db.t.ifaces[old(db.t.nextId)].egress == if Trim(row.egress) != "" then Trim(row.egress) else fw.uplink
    {
      hide Routed, Database.Integrity, Mirror, NatExact, NatBag, TagSafe, Tidy, EgressesKnown, MirrorBut, OtherDevices,
           DevicesReconciled, LinkKept, SameTags, Database.NameTaken;
      OtherDevicesSelf(kernel.devices, row.name);
      SameTagsSelf(fw.chains);
      ghost var t := db.t;
      var out, id := InsertRow(row);
      if out.Duplicate? {
        return Conflict;
      } else if out.Failed? {
        return ServerError;
      }
      NatExactParts(t, fw.chains, base);
      var ok := ReconcileChanged(id, row.name, t);
      reply := if ok then Success else Warning;
      if ok {
        ReconciledLink(db.t, old(kernel.devices), kernel.devices, id);
      }
    }

    /** The insert of Create. */
    method InsertRow(row: Interface) returns (out: Database.Outcome, id: nat)
      requires Valid() && row.name != ""
      modifies db
      ensures Valid() && Monotone() && (out.Done? ==> id == old(db.t.nextId))
      ensures out.Duplicate? <==> Database.NameTaken(old(db.t), row.name)
      ensures db.t == if out.Done?
                      then Database.AddInterface(old(db.t), Database.StoredInterface(row.(egress := Trim(row.egress))))
                      else old(db.t)
      ensures if out.Failed? then db.failures > old(db.failures) else db.failures == old(db.failures)
      ensures out.Done? ==> db.t.ifaces - {id} == old(db.t.ifaces) - {id} == old(db.t.ifaces)
      ensures out.Done? && Mirror(old(db.t), kernel.devices) ==>
        MirrorBut(db.t, kernel.devices, id, row.name) && row.name !in kernel.devices
    {
      hide Routed, Database.Integrity, Mirror, MirrorBut, TagSafe;
      ghost var t := db.t;
      TrimIsTrimmed(row.egress);
      var stored := row.(egress := Trim(row.egress));
      out, id := db.InsertInterface(stored);
      if out.Done? {
        NewInterface(t, db.t, kernel.devices, fw.chains, stored);
        if Mirror(t, kernel.devices) {
          NoDeviceYet(t, kernel.devices, row.name);
        }
      }
    }

    /** TeardownNAT for a stored row: the interface's share leaves the chains. */
    method TeardownInterface(id: nat)
      requires Valid() && id in db.t.ifaces
      modifies fw`chains
      ensures Valid() && SameTags(old(fw.chains), fw.chains)
      ensures NatExact(db.t, old(fw.chains), base) && IsTidy() ==> NatBag(fw.chains, base, Demand(db.t.ifaces - {id}))
    {
      var iface := db.t.ifaces[id];
      ghost var before := fw.chains;
      RoutedAfterTeardown(iface);
      fw.TeardownNat(iface.address, iface.name, iface.egress);
      forall f: nat
        ensures SameTag(before, fw.chains, f)
      {
        TornDownKeepsTags(before, iface.address, iface.name, IpTables.EgressFor(iface.egress, fw.uplink), f);
      }
      TagSafeUntaggedChange(db.t, before, fw.chains);
      if NatExact(db.t, before, base) && IsTidy() {
        NatAfterTeardown(db.t, before, base, id, fw.uplink);
      }
    }

    static function UpdatedInterface(row: Interface, listenPort: int, address: Cidr, mtu: int,
                                     enabled: Option<bool>, masquerade: Option<bool>, egress: string): Interface
    {
      row.(listenPort := listenPort, address := address, mtu := if mtu > 0 then mtu else row.mtu,
           enabled := if enabled.Some? then enabled.value else row.enabled,
           masquerade := if masquerade.Some? then masquerade.value else row.masquerade,
           egress := Trim(egress))
    }

    /** The devices of an interface whose link stays: its MTU stays, and addresses are only added. */
    static predicate LinkKept(before: map<string, Kernel.Device>, after: map<string, Kernel.Device>, name: string,
                              address: Cidr)
    {
      name in before && name in after ==>
        after[name].mtu == before[name].mtu && after[name].addresses == before[name].addresses + {address}
    }

    /** Interface Update. */
    method UpdateInterface(id: nat, listenPort: int, address: Cidr, mtu: int,
                           enabled: Option<bool>, masquerade: Option<bool>, egress: string) returns (reply: Reply)
      requires Valid()
      modifies db, kernel, fw
      ensures Kept()
      ensures !reply.Conflict? && !reply.Unprocessable?
      ensures reply.NotFound? <==> !Database.Live(old(db.t), id)
      ensures reply.Success? || reply.Warning? ==>
        EgressOnly(
          Database.PutInterface(
            old(db.t), id,
            UpdatedInterface(old(db.t.ifaces)[id], listenPort, address, mtu, enabled, masquerade, egress)),
          db.t, id)
      ensures !(reply.Success? || reply.Warning?) ==> db.t == old(db.t)
      ensures Clean() && !reply.NotFound? ==> reply.Success?
      ensures Clean() && reply.Success? ==>
        if db.t.ifaces[id].enabled
        then AllForwarded(db.t, fw.chains, EnabledForwards(db.t, ForwardsOfInterface(db.t, id)))
        else NoTags(fw.chains, ForwardsOfInterface(db.t, id))
      ensures OthersUntouched(id, !reply.NotFound?)
      ensures reply.Success? || reply.Warning? ==>
        db.t.ifaces[id].mtu == (if mtu > 0 then mtu else old(db.t.ifaces)[id].mtu)
      ensures Clean() && old(Mirrors()) && reply.Success? ==>
        var was := old(db.t.ifaces)[id];
        && DeviceShows(kernel.devices, was.name, enabled == Some(true) || (enabled.None? && was.enabled),
                       was.privateKey, listenPort, address)
        && LinkKept(old(kernel.devices), kernel.devices, was.name, address)
      ensures Clean() && old(NatIsExact()) && old(IsTidy()) && IsTidy() && reply.Success? ==>
        var was := old(db.t.ifaces)[id];
        (enabled == Some(true) || (enabled.None? && was.enabled))
        && (masquerade == Some(true) || (masquerade.None? && was.masquerade))
        ==> Carries(fw.chains, was.name, address, if Trim(egress) != "" then Trim(egress) else fw.uplink)
    {
      if id !in db.t.ifaces || db.t.ifaces[id].trashed {
        return NotFound;
      }
      ghost var t := db.t;
      var row := UpdatedInterface(db.t.ifaces[id], listenPort, address, mtu, enabled, masquerade, egress);
      TrimIsTrimmed(egress);
      hide *;
      reply := SaveInterface(id, row);
      if reply.Success? || reply.Warning? {
        RowAfterUpdate(t, db.t, id, listenPort, address, mtu, enabled, masquerade, egress);
        ValidIsSound();
        InterfaceOutcome(db.t, kernel.devices, fw.chains, base, id);
      }
    }

    /** The row after an update, told by what was asked for. */
    static lemma RowAfterUpdate(t: Tables, b: Tables, id: nat, listenPort: int, address: Cidr, mtu: int,
                                enabled: Option<bool>, masquerade: Option<bool>, egress: string)
      requires Database.Live(t, id)
      requires EgressOnly(
                 Database.PutInterface(
                   t, id, UpdatedInterface(t.ifaces[id], listenPort, address, mtu, enabled, masquerade, egress)),
                 b, id)
      ensures id in b.ifaces
      ensures var was, row := t.ifaces[id], b.ifaces[id];
              && row.name == was.name && row.privateKey == was.privateKey && row.listenPort == listenPort
              && row.address == address && row.mtu == (if mtu > 0 then mtu else was.mtu)
              && (Up(row) <==> enabled == Some(true) || (enabled.None? && was.enabled))
              && (Natted(row) <==> Up(row) && (masquerade == Some(true) || (masquerade.None? && was.masquerade)))
    {
    }

    /** Safety, spelled out. */
    lemma ValidIsSound()
      requires Valid()
      ensures Database.Integrity(db.t) && TagSafe(db.t, fw.chains) && WellPlaced(fw.chains)
    {
    }

    /** Update from its teardown on: the old NAT rules go before the row is saved and reconciled,
        and the interface's forwards come last. */
    method SaveInterface(id: nat, row: Interface) returns (reply: Reply)
      requires Valid() && Database.Live(db.t, id) && Trimmed(row.egress)
      requires row.name == db.t.ifaces[id].name && !row.trashed
      modifies db, kernel, fw
      ensures Kept()
      ensures reply.Success? || reply.Warning? || reply.ServerError?
      ensures reply.Success? || reply.Warning? ==> EgressOnly(Database.PutInterface(old(db.t), id, row), db.t, id)
      ensures reply.ServerError? ==> db.t == old(db.t)
      ensures Clean() ==> reply.Success?
      ensures Clean() ==>
        if db.t.ifaces[id].enabled
        then AllForwarded(db.t, fw.chains, EnabledForwards(db.t, ForwardsOfInterface(db.t, id)))
        else NoTags(fw.chains, ForwardsOfInterface(db.t, id))
      ensures Clean() && Natted(db.t.ifaces[id]) ==>
        db.t.ifaces[id].egress == EgressOf(row, fw.uplink)
      ensures Clean() ==> LinkKept(old(kernel.devices), kernel.devices, row.name, row.address)
      ensures OthersUntouched(id, true)
    {
      hide Routed, Database.Integrity, Mirror, NatExact, NatBag, TagSafe, Tidy, EgressesKnown, MirrorBut, OnlyTags,
           SameElsewhere, OtherTags, OtherDevices, SameTags, AllForwarded, NoTags, DevicesReconciled, LinkKept;
      ghost var t, ids := db.t, ForwardsOfInterface(db.t, id);
      OtherDevicesSelf(kernel.devices, row.name);
      var ok := SaveRow(id, row);
      ghost var torn := fw.chains;
      OnlyTagsOthers(old(fw.chains), fw.chains, ids);
      if !ok {
        return ServerError;
      }
      InterfaceWrites(t, id, row);
      ok := ReconcileChanged(id, row.name, t);
      OnlyTagsOthers(torn, fw.chains, ids);
      OtherTagsJoin(old(fw.chains), torn, fw.chains, ids);
      if !ok {
        return Warning;
      }
      ReconciledLink(db.t, old(kernel.devices), kernel.devices, id);
      ghost var reconciled := fw.chains;
      SettleForwards(id);
      OnlyTagsOthers(reconciled, fw.chains, ids);
      OtherTagsJoin(old(fw.chains), reconciled, fw.chains, ids);
      reply := Success;
    }

    /** The interface's NAT rules go, then its row is saved. */
    method SaveRow(id: nat, row: Interface) returns (ok: bool)
      requires Valid() && id in db.t.ifaces && Trimmed(row.egress)
      requires row.name == db.t.ifaces[id].name && row.trashed == db.t.ifaces[id].trashed
      modifies db, fw`chains
      ensures Valid() && Monotone() && SameTags(old(fw.chains), fw.chains)
      ensures db.t == if ok then Database.PutInterface(old(db.t), id, row) else old(db.t)
      ensures ok <==> db.failures == old(db.failures)
      ensures NatExact(old(db.t), old(fw.chains), base) && old(IsTidy()) ==>
        EgressesKnown(old(db.t.ifaces)) && NatBag(fw.chains, base, Demand(old(db.t.ifaces) - {id}))
      ensures ok && Mirror(old(db.t), kernel.devices) ==> MirrorBut(db.t, kernel.devices, id, row.name)
    {
      hide Routed, Database.Integrity, Mirror, MirrorBut, NatExact, NatBag, TagSafe, Tidy, EgressesKnown, SameElsewhere,
           SameTags;
      ghost var t := db.t;
      NatExactParts(t, fw.chains, base);
      TeardownInterface(id);
      Database.PutInterfaceKeeps(t, id, row);
      TagSafeSameForwards(t, Database.PutInterface(t, id, row), fw.chains);
      ok := WriteInterfaces(Database.PutInterface(db.t, id, row));
      InterfaceWrites(t, id, row);
      if ok && Mirror(t, kernel.devices) {
        ChangedElsewhere(t, db.t, kernel.devices, id);
      }
    }

    static lemma ReconciledLink(t: Tables, before: map<string, Kernel.Device>, after: map<string, Kernel.Device>,
                                id: nat)
      requires id in t.ifaces && DevicesReconciled(t, before, after, id)
      ensures LinkKept(before, after, t.ifaces[id].name, t.ifaces[id].address)
      ensures t.ifaces[id].enabled && t.ifaces[id].name !in before ==>
                t.ifaces[id].name in after && after[t.ifaces[id].name].mtu == t.ifaces[id].mtu
    {
    }

    /** The tail of Update: the interface's forwards follow its enabled flag. */
    method SettleForwards(id: nat)
      requires Valid() && id in db.t.ifaces
      modifies fw
      ensures Valid() && Monotone() && OnlyTags(old(fw.chains), fw.chains, ForwardsOfInterface(db.t, id))
      ensures old(NatIsExact()) ==> NatIsExact()
      ensures fw.failures == old(fw.failures) ==>
        if db.t.ifaces[id].enabled
        then AllForwarded(db.t, fw.chains, EnabledForwards(db.t, ForwardsOfInterface(db.t, id)))
        else NoTags(fw.chains, ForwardsOfInterface(db.t, id))
    {
      hide NatExact, OnlyTags, AllForwarded, NoTags;
      if db.t.ifaces[id].enabled {
        ReapplyEnabled(id);
      } else {
        var ids := ForwardsOfInterface(db.t, id);
        ghost var before := fw.chains;
        RemoveForwardRules(ids, db.t.ifaces[id].name);
        NatExactTags(db.t, before, fw.chains, base, ids);
      }
    }

    /** reapplyPortForwardsForInterface. */
    method ReapplyEnabled(id: nat)
      requires Valid() && id in db.t.ifaces
      modifies fw
      ensures Valid() && Monotone() && OnlyTags(old(fw.chains), fw.chains, ForwardsOfInterface(db.t, id))
      ensures old(NatIsExact()) ==> NatIsExact()
      ensures fw.failures == old(fw.failures) ==>
        AllForwarded(db.t, fw.chains, EnabledForwards(db.t, ForwardsOfInterface(db.t, id)))
    {
      hide NatExact, OnlyTags, AllForwarded, NoTags;
      var ids := ForwardsOfInterface(db.t, id);
      ghost var before := fw.chains;
      ReapplyForwards(EnabledForwards(db.t, ids), db.t.ifaces[id].name);
      OnlyTagsMore(before, fw.chains, EnabledForwards(db.t, ids), ids);
      NatExactTags(db.t, before, fw.chains, base, EnabledForwards(db.t, ids));
    }

    static function WithPeersTrashed(t: Tables, id: nat): Tables
      requires id in t.ifaces
    {
      Database.PutInterface(Database.MarkPeersOf(t, id, true), id, t.ifaces[id].(trashed := true))
    }

    /** Interface Delete: rules, NAT and device first, then the peers and the row to the trash. */
    method DeleteInterface(id: nat) returns (reply: Reply)
      requires Valid()
      modifies db, kernel, fw
      ensures Kept()
      ensures !reply.Conflict? && !reply.Unprocessable?
      ensures reply.NotFound? <==> !Database.Live(old(db.t), id)
      ensures reply.NotFound? ==> db.t == old(db.t)
      ensures reply.Success? || reply.Warning? ==>
        db.t == WithPeersTrashed(old(db.t), id)
      ensures Clean() && !reply.NotFound? ==> reply.Success?
      ensures reply.ServerError? ==> db.t == old(db.t) || db.t == Database.MarkPeersOf(old(db.t), id, true)
      ensures !reply.NotFound? ==> NoTags(fw.chains, ForwardsOfInterface(old(db.t), id))
      ensures Clean() && !reply.NotFound? ==> old(db.t.ifaces)[id].name !in kernel.devices
      ensures OthersUntouched(id, !reply.NotFound?)
    {
      hide Routed, Database.Integrity, Mirror, NatExact, NatBag, TagSafe, Tidy, EgressesKnown, OnlyTags, NoTags,
           SameElsewhere, OtherTags, OtherDevices;
      if id !in db.t.ifaces || db.t.ifaces[id].trashed {
        return NotFound;
      }
      ghost var t := db.t;
      var row := db.t.ifaces[id];
      OtherDevicesSelf(kernel.devices, row.name);
      OtherDevicesGone(kernel.devices, row.name);
      StripInterface(id);
      var removed := kernel.RemoveLink(row.name);
      var ok := TrashWithPeers(id);
      if !ok {
        return ServerError;
      }
      InterfaceWrites(t, id, row.(trashed := true));
      if removed && Mirror(t, old(kernel.devices)) {
        DeviceGone(t, db.t, old(kernel.devices), id);
      }
      if EgressesKnown(t.ifaces) && NatBag(fw.chains, base, Demand(t.ifaces - {id})) {
        NatWithout(t, db.t, fw.chains, base, id);
      }
      reply := if removed then Success else Warning;
    }

    /** The first half of Delete: the interface's forward rules and NAT rules go. */
    method StripInterface(id: nat)
      requires Valid() && id in db.t.ifaces
      modifies fw`chains
      ensures Valid() && NoTags(fw.chains, ForwardsOfInterface(db.t, id))
      ensures OtherTags(old(fw.chains), fw.chains, ForwardsOfInterface(db.t, id))
      ensures NatExact(db.t, old(fw.chains), base) && IsTidy() ==>
        EgressesKnown(db.t.ifaces) && NatBag(fw.chains, base, Demand(db.t.ifaces - {id}))
    {
      hide NatExact, NatBag, OnlyTags, OtherTags, Tidy, EgressesKnown;
      var ids := ForwardsOfInterface(db.t, id);
      ghost var before := fw.chains;
      RemoveForwardRules(ids, db.t.ifaces[id].name);
      NatExactTags(db.t, before, fw.chains, base, ids);
      NatExactParts(db.t, before, base);
      ghost var between := fw.chains;
      TeardownInterface(id);
      StrippedTags(before, between, fw.chains, ids);
    }

    /** The two soft deletes of Delete, peers before their interface. */
    method TrashWithPeers(id: nat) returns (ok: bool)
      requires Valid() && id in db.t.ifaces
      modifies db
      ensures Valid() && Monotone()
      ensures ok <==> db.failures == old(db.failures)
      ensures ok ==> db.t == WithPeersTrashed(old(db.t), id)
      ensures !ok ==> db.t == old(db.t) || db.t == Database.MarkPeersOf(old(db.t), id, true)
    {
      hide Routed, Database.Integrity, TagSafe;
      Database.TrashPeersKeeps(db.t, id);
      ok := WritePeers(Database.MarkPeersOf(db.t, id, true));
      if ok {
        var next := Database.PutInterface(db.t, id, db.t.ifaces[id].(trashed := true));
        Database.TrashInterfaceIff(db.t, id);
        TagSafeSameForwards(db.t, next, fw.chains);
        ok := WriteInterfaces(next);
      }
    }

    static function RowRestored(t: Tables, id: nat): Tables
      requires id in t.ifaces
    {
      Database.PutInterface(t, id, t.ifaces[id].(trashed := false))
    }

    static function WithPeersRestored(t: Tables, id: nat): Tables
      requires id in t.ifaces
    {
      Database.MarkPeersOf(RowRestored(t, id), id, false)
    }

    /** Interface Restore. */
    method RestoreInterface(id: nat) returns (reply: Reply)
      requires Valid()
      modifies db, kernel, fw
      ensures Kept()
      ensures !reply.Conflict? && !reply.Unprocessable?
      ensures reply.NotFound? <==> id !in old(db.t.ifaces)
      ensures reply.NotFound? || reply.ServerError? ==> db.t == old(db.t)
      ensures !reply.NotFound? && !old(db.t.ifaces)[id].trashed ==> reply.Success? && db.t == old(db.t)
      ensures Clean() && !reply.NotFound? ==> reply.Success?
      ensures !reply.NotFound? && old(db.t.ifaces)[id].trashed ==>
        && (reply.Success? ==> EgressOnly(WithPeersRestored(old(db.t), id), db.t, id))
        && (reply.Warning? ==>
              db.t == RowRestored(old(db.t), id) || EgressOnly(WithPeersRestored(old(db.t), id), db.t, id))
      ensures OthersUntouched(id, !reply.NotFound? && old(db.t.ifaces)[id].trashed)
      ensures Clean() && !reply.NotFound? && old(db.t.ifaces)[id].trashed ==>
        AllForwarded(db.t, fw.chains, EnabledForwards(db.t, ForwardsOfInterface(db.t, id)))
      ensures reply.Success? && old(db.t.ifaces)[id].trashed
              ==> Database.Live(db.t, id) && AllPeersLive(old(db.t), db.t, id)
      ensures Clean() && old(Mirrors()) && reply.Success? ==>
        var was := old(db.t.ifaces)[id];
        DeviceShows(kernel.devices, was.name, was.enabled, was.privateKey, was.listenPort, was.address)
      ensures Clean() && old(NatIsExact()) && old(IsTidy()) && IsTidy() && reply.Success? ==>
        var was := old(db.t.ifaces)[id];
        was.enabled && was.masquerade
        ==> Carries(fw.chains, was.name, was.address, EgressOf(was, fw.uplink))
    {
      if id !in db.t.ifaces {
        return NotFound;
      }
      ghost var t := db.t;
      if !db.t.ifaces[id].trashed {
        ValidIsSound();
        InterfaceOutcome(db.t, kernel.devices, fw.chains, base, id);
        EgressIsKnown(db.t, fw.chains, base, id);
        hide Routed, Database.Integrity, Mirror, NatExact, TagSafe, Tidy, Carries, DeviceShows;
        return Success;
      }
      hide *;
      reply := RestoreTrashed(id);
      if reply.Success? {
        RowAfterRestore(t, db.t, id);
        ValidIsSound();
        InterfaceOutcome(db.t, kernel.devices, fw.chains, base, id);
      }
    }

    /** The interface's peers are as they were, and none is in the trash. */
    static predicate AllPeersLive(a: Tables, b: Tables, id: nat) {
      forall p :: p in a.peers && a.peers[p].iface == id ==> p in b.peers && b.peers[p] == a.peers[p].(trashed := false)
    }

    static lemma RowAfterRestore(t: Tables, b: Tables, id: nat)
      requires id in t.ifaces && EgressOnly(WithPeersRestored(t, id), b, id)
      ensures Database.Live(b, id) && AllPeersLive(t, b, id)
      ensures var was, row := t.ifaces[id], b.ifaces[id];
              && row.name == was.name && row.privateKey == was.privateKey && row.listenPort == was.listenPort
              && row.address == was.address && (Up(row) <==> was.enabled)
              && (Natted(row) <==> Up(row) && was.masquerade)
    {
    }

    static lemma EgressIsKnown(t: Tables, ch: Chains, base: Chains, id: nat)
      requires id in t.ifaces
      ensures NatExact(t, ch, base) && Natted(t.ifaces[id]) ==> t.ifaces[id].egress != ""
    {
    }

    /** Restore from the trash: the row, then its peers, then the host. */
    method RestoreTrashed(id: nat) returns (reply: Reply)
      requires Valid() && id in db.t.ifaces && db.t.ifaces[id].trashed
      modifies db, kernel, fw
      ensures Kept()
      ensures !reply.Conflict? && !reply.Unprocessable? && !reply.NotFound?
      ensures reply.ServerError? ==> db.t == old(db.t)
      ensures Clean() ==> reply.Success?
      ensures reply.Success? ==> EgressOnly(WithPeersRestored(old(db.t), id), db.t, id)
      ensures reply.Warning? ==>
        db.t == RowRestored(old(db.t), id) || EgressOnly(WithPeersRestored(old(db.t), id), db.t, id)
      ensures OthersUntouched(id, true)
      ensures Clean() ==> AllForwarded(db.t, fw.chains, EnabledForwards(db.t, ForwardsOfInterface(db.t, id)))
      ensures reply.Success? && id in db.t.ifaces && Natted(db.t.ifaces[id]) ==>
        db.t.ifaces[id].egress == EgressOf(old(db.t.ifaces)[id], fw.uplink)
    {
      hide Routed, Database.Integrity, Mirror, NatExact, NatBag, TagSafe, Tidy, EgressesKnown, MirrorBut, OnlyTags,
           SameElsewhere, AllForwarded, OtherTags, OtherDevices, SameTags, DevicesReconciled, LinkKept;
      var row := db.t.ifaces[id];
      ghost var t, own := db.t, ForwardsOfInterface(db.t, id);
      OtherDevicesSelf(kernel.devices, row.name);
      OtherTagsSelf(fw.chains, own);
      var first, ok := RestoreRows(id);
      if !ok {
        return if first then Warning else ServerError;
      }
      ok := ReconcileChanged(id, row.name, t);
      OnlyTagsOthers(old(fw.chains), fw.chains, own);
      if !ok {
        return Warning;
      }
      ghost var reconciled := fw.chains;
      ReapplyEnabled(id);
      OnlyTagsOthers(reconciled, fw.chains, own);
      OtherTagsJoin(old(fw.chains), reconciled, fw.chains, own);
      reply := Success;
    }

    /** The two updates of Restore. */
    method RestoreRows(id: nat) returns (first: bool, ok: bool)
      requires Valid() && id in db.t.ifaces && db.t.ifaces[id].trashed
      modifies db
      ensures Valid() && Monotone() && (ok ==> first) && (ok <==> db.failures == old(db.failures))
      ensures db.t == if ok then WithPeersRestored(old(db.t), id)
                      else if first then RowRestored(old(db.t), id) else old(db.t)
      ensures ok ==> Database.Live(db.t, id) && db.t.ifaces[id].name == old(db.t.ifaces)[id].name
      ensures ok ==> db.t.ifaces - {id} == old(db.t.ifaces) - {id} && db.t.forwards == old(db.t.forwards)
      ensures ok && Mirror(old(db.t), kernel.devices) ==>
        MirrorBut(db.t, kernel.devices, id, old(db.t.ifaces)[id].name)
      ensures NatExact(old(db.t), fw.chains, base) ==>
        EgressesKnown(old(db.t.ifaces)) && NatBag(fw.chains, base, Demand(old(db.t.ifaces) - {id}))
    {
      hide Routed, Database.Integrity, Mirror, MirrorBut, NatExact, NatBag, TagSafe, EgressesKnown, SameElsewhere;
      ghost var t := db.t;
      NatExactParts(t, fw.chains, base);
      DemandOfOthers(t.ifaces, id);
      first := RestoreRow(id);
      ok := false;
      if first {
        ok := RestorePeersOf(id);
      }
      InterfaceWrites(t, id, t.ifaces[id].(trashed := false));
      if ok && Mirror(t, kernel.devices) {
        ChangedElsewhere(t, db.t, kernel.devices, id);
      }
    }

    method RestoreRow(id: nat) returns (ok: bool)
      requires Valid() && id in db.t.ifaces
      modifies db
      ensures Valid() && Monotone()
      ensures ok <==> db.failures == old(db.failures)
      ensures db.t == if ok then Database.PutInterface(old(db.t), id, old(db.t.ifaces)[id].(trashed := false))
              else old(db.t)
    {
      var next := Database.PutInterface(db.t, id, db.t.ifaces[id].(trashed := false));
      Database.RestoreInterfaceKeeps(db.t, id);
      TagSafeSameForwards(db.t, next, fw.chains);
      ok := WriteInterfaces(next);
    }

    method RestorePeersOf(id: nat) returns (ok: bool)
      requires Valid() && Database.Live(db.t, id)
      modifies db
      ensures Valid() && Monotone()
      ensures ok <==> db.failures == old(db.failures)
      ensures db.t == if ok then Database.MarkPeersOf(old(db.t), id, false) else old(db.t)
    {
      Database.RestorePeersKeeps(db.t, id);
      ok := WritePeers(Database.MarkPeersOf(db.t, id, false));
    }

    /** Interface Purge: forwards with their rows, NAT and device, then peers and the row. */
    method PurgeInterface(id: nat) returns (reply: Reply)
      requires Valid()
      modifies db, kernel, fw
      ensures Kept()
      ensures !reply.Conflict? && !reply.Unprocessable?
      ensures reply.NotFound? <==> id !in old(db.t.ifaces)
      ensures reply.NotFound? ==> db.t == old(db.t)
      ensures var u := old(db.t).(forwards := db.t.forwards);
              && OnlyForwardsDropped(old(db.t), u, ForwardsOfInterface(old(db.t), id))
              && (reply.Success? || reply.Warning? ==> db.t == Database.DropInterface(Database.DropPeersOf(u, id), id))
              && (reply.ServerError? ==> db.t == u || db.t == Database.DropPeersOf(u, id))
      ensures !reply.NotFound? ==> NoTags(fw.chains, ForwardsOfInterface(old(db.t), id))
      ensures Clean() && !reply.NotFound? ==> old(db.t.ifaces)[id].name !in kernel.devices
      ensures OthersUntouched(id, !reply.NotFound?)
      ensures Clean() && !reply.NotFound? ==> reply.Success?
      ensures Clean() && !reply.NotFound? ==> id !in db.t.ifaces && ForwardsOfInterface(db.t, id) == {}
    {
      hide Routed, Database.Integrity, Mirror, NatExact, NatBag, TagSafe, Tidy, EgressesKnown, OnlyTags, NoTags,
           SameElsewhere, OtherTags, OtherDevices;
      if id !in db.t.ifaces {
        return NotFound;
      }
      ghost var t := db.t;
      var row := db.t.ifaces[id];
      OtherDevicesSelf(kernel.devices, row.name);
      OtherDevicesGone(kernel.devices, row.name);
      PurgeAndStrip(id);
      ghost var u := db.t;
      NoTagsFewer(fw.chains, ForwardsOfInterface(t, id), ForwardsOfInterface(u, id));
      if Tidy(t, base) {
        TidyMoves(t, u, base);
      }
      var removed := kernel.RemoveLink(row.name);
      var ok := DropWithPeers(id);
      if !ok {
        return ServerError;
      }
      InterfaceWrites(u, id, row);
      if removed && Mirror(t, old(kernel.devices)) {
        MirrorSame(t, u, old(kernel.devices));
        DeviceGone(u, db.t, old(kernel.devices), id);
      }
      if EgressesKnown(u.ifaces) && NatBag(fw.chains, base, Demand(u.ifaces - {id})) {
        NatWithout(u, db.t, fw.chains, base, id);
      }
      assert ForwardsOfInterface(db.t, id) == ForwardsOfInterface(u, id);
      reply := if removed then Success else Warning;
    }

    /** The first half of Purge: forward rules with their rows, then the NAT rules. */
    method PurgeAndStrip(id: nat)
      requires Valid() && id in db.t.ifaces
      modifies db, fw`chains
      ensures Valid() && Monotone() && OnlyForwardsDropped(old(db.t), db.t, ForwardsOfInterface(old(db.t), id))
      ensures NoTags(fw.chains, ForwardsOfInterface(old(db.t), id))
      ensures OtherTags(old(fw.chains), fw.chains, ForwardsOfInterface(old(db.t), id))
      ensures db.failures == old(db.failures) ==> ForwardsOfInterface(db.t, id) == {}
      ensures NatExact(old(db.t), old(fw.chains), base) && IsTidy() ==>
        EgressesKnown(db.t.ifaces) && NatBag(fw.chains, base, Demand(db.t.ifaces - {id}))
    {
      hide Routed, Database.Integrity, TagSafe, NatExact, NatBag, OnlyTags, OtherTags, Tidy, EgressesKnown;
      var ids := ForwardsOfInterface(db.t, id);
      ghost var before, t := fw.chains, db.t;
      PurgeForwards(ids, db.t.ifaces[id].name);
      if NatExact(t, before, base) {
        OnlyTagsUntagged(before, fw.chains, ids);
        NatExactMoves(t, db.t, before, fw.chains, base);
      }
      NatExactParts(t, before, base);
      ghost var between := fw.chains;
      TeardownInterface(id);
      StrippedTags(before, between, fw.chains, ids);
    }

    /** The two hard deletes of Purge, peers before their interface. */
    method DropWithPeers(id: nat) returns (ok: bool)
      requires Valid() && id in db.t.ifaces && NoTags(fw.chains, ForwardsOfInterface(db.t, id))
      modifies db
      ensures Valid() && Monotone()
      ensures ok <==> db.failures == old(db.failures)
      ensures ok ==> db.t == Database.DropInterface(Database.DropPeersOf(old(db.t), id), id)
      ensures !ok ==> db.t == old(db.t) || db.t == Database.DropPeersOf(old(db.t), id)
    {
      hide Routed, Database.Integrity, TagSafe, NoTags;
      Database.DropPeersKeeps(db.t, id);
      ok := WritePeers(Database.DropPeersOf(db.t, id));
      if ok {
        Database.DropInterfaceIff(db.t, id);
        TagSafeDropInterface(db.t, fw.chains, id);
        ok := WriteInterfaces(Database.DropInterface(db.t, id));
      }
    }

    /** Interface Sync: the full form on request. */
    method SyncInterface(id: nat) returns (reply: Reply)
      requires Valid()
      modifies db, kernel, fw
      ensures Kept()
      ensures !reply.Conflict? && !reply.Unprocessable? && !reply.Warning?
      ensures reply.NotFound? <==> !Database.Live(old(db.t), id)
      ensures reply.Success? <==> Database.Live(old(db.t), id) && Clean()
      ensures EgressOnly(old(db.t), db.t, id) && SameTags(old(fw.chains), fw.chains)
      ensures OthersUntouched(id, !reply.NotFound?)
      ensures reply.Success? ==> DevicesReconciled(db.t, old(kernel.devices), kernel.devices, id)
    {
      hide Routed, Database.Integrity, Mirror, NatExact, TagSafe, Tidy, DevicesReconciled, NatStep, OtherTags,
           OtherDevices;
      if id !in db.t.ifaces || db.t.ifaces[id].trashed {
        return NotFound;
      }
      ghost var t := db.t;
      var ok := Reconcile(id);
      OnlyTagsOthers(old(fw.chains), fw.chains, ForwardsOfInterface(t, id));
      if !ok {
        return ServerError;
      }
      if Mirror(t, old(kernel.devices)) {
        Resynced(t, db.t, old(kernel.devices), kernel.devices, id);
      }
      if NatExact(t, old(fw.chains), base) && IsTidy() {
        NatAfterResync(t, db.t, old(fw.chains), fw.chains, base, id);
      }
      reply := Success;
    }

    // --- Port forwards ---

    /** reservedPort: SSH, the panel itself, and every interface's listen port, trashed or not. */
    predicate Reserved(port: int)
      reads db
    {
      port == 22 || port == serverPort || exists i :: i in db.t.ifaces && db.t.ifaces[i].listenPort == port
    }

    static predicate BothLive(t: Tables, iface: nat, peer: nat) {
      Database.Live(t, iface) && peer in t.peers && !t.peers[peer].trashed
    }

    /** Port-forward Create; target and egress are snapshots. */
    method CreateForward(iface: nat, peer: nat, proto: Proto, publicPort: int, targetPort: int) returns (reply: Reply)
      requires Valid()
      modifies db, fw
      ensures Kept()
      ensures reply.Success? || reply.Warning? ==>
        && Database.Live(old(db.t), iface) && peer in old(db.t.peers) && !old(db.t.peers)[peer].trashed
        && db.t == Database.AddForward(
                     old(db.t),
                     PortForward(iface, peer, proto, publicPort, targetPort, old(db.t.peers)[peer].ip,
                                 EgressOf(old(db.t.ifaces)[iface], fw.uplink), true))
      ensures !(reply.Success? || reply.Warning?) ==> db.t == old(db.t) && fw.chains == old(fw.chains)
      ensures reply.NotFound? <==> !HostPort(old(db.t), serverPort, publicPort) && !BothLive(old(db.t), iface, peer)
      ensures reply.Unprocessable? <==>
        HostPort(old(db.t), serverPort, publicPort)
        || (BothLive(old(db.t), iface, peer) && old(db.t.peers)[peer].iface != iface)
      ensures old(HostPortsFree(db.t, serverPort)) ==> HostPortsFree(db.t, serverPort)
      ensures reply.Conflict? ==> Database.PortTaken(old(db.t), proto, publicPort)
      ensures Clean() && !reply.NotFound? && !reply.Unprocessable? ==>
        if EgressOf(old(db.t.ifaces)[iface], fw.uplink) == "" then reply.ServerError?
        else if Database.PortTaken(old(db.t), proto, publicPort) then reply.Conflict? else reply.Success?
      ensures reply.Success? ==> FullyForwarded(db.t, fw.chains, old(db.t.nextId))
      ensures OnlyTags(old(fw.chains), fw.chains, {old(db.t.nextId)})
      ensures reply.Success? ==>
        Lands(fw.chains, EgressOf(old(db.t.ifaces)[iface], fw.uplink), proto, publicPort, old(db.t.peers)[peer].ip,
              targetPort)
    {
      ghost var t := db.t;
      if Reserved(publicPort) {
        return Unprocessable;
      }
      if iface !in db.t.ifaces || db.t.ifaces[iface].trashed || peer !in db.t.peers || db.t.peers[peer].trashed {
        return NotFound;
      }
      if db.t.peers[peer].iface != iface {
        return Unprocessable;
      }
      var egress := IpTables.EgressFor(db.t.ifaces[iface].egress, fw.uplink);
      EgressChosen(db.t, iface, fw.uplink);
      if egress == "" {
        return ServerError;
      }
      EgressForTrimmed(db.t.ifaces[iface].egress, fw.uplink);
      Database.InterfaceBelow(db.t, iface);
      var row := PortForward(iface, peer, proto, publicPort, targetPort, db.t.peers[peer].ip, egress, true);
      PortsStayFree(db.t, row, serverPort);
      hide *;
      reply := StoreForward(row);
    }

    static lemma PortsStayFree(t: Tables, row: PortForward, panel: int)
      requires !HostPort(t, panel, row.publicPort)
      ensures HostPortsFree(t, panel) ==> HostPortsFree(Database.AddForward(t, row), panel)
    {
    }

    /** Create once everything has been checked: the row, then its rules. */
    method StoreForward(row: PortForward) returns (reply: Reply)
      requires Valid() && row.iface in db.t.ifaces && row.iface < db.t.nextId && row.peer in db.t.peers
      requires db.t.peers[row.peer].iface == row.iface && db.t.peers[row.peer].ip == row.targetIp
      requires Trimmed(row.egress) && row.egress != ""
      modifies db, fw
      ensures Kept() && OnlyTags(old(fw.chains), fw.chains, {old(db.t.nextId)})
      ensures !reply.NotFound? && !reply.Unprocessable?
      ensures reply.Success? || reply.Warning? ==> db.t == Database.AddForward(old(db.t), row)
      ensures !(reply.Success? || reply.Warning?) ==> db.t == old(db.t) && fw.chains == old(fw.chains)
      ensures reply.Conflict? ==> Database.PortTaken(old(db.t), row.proto, row.publicPort)
      ensures Clean() ==>
        if Database.PortTaken(old(db.t), row.proto, row.publicPort) then reply.Conflict? else reply.Success?
      ensures reply.Success? ==>
        && FullyForwarded(db.t, fw.chains, old(db.t.nextId))
        && Lands(fw.chains, row.egress, row.proto, row.publicPort, row.targetIp, row.targetPort)
    {
      hide Routed, Database.Integrity, Mirror, NatExact, TagSafe, Tidy, Lands;
      ghost var t := db.t;
      var out, id := db.InsertForward(row);
      if out.Duplicate? {
        return Conflict;
      } else if out.Failed? {
        return ServerError;
      }
      TagSafeAddForward(t, fw.chains, row);
      var ok := ApplyForward(id, db.t.ifaces[row.iface].name);
      ForwardsOnly(t, db.t, kernel.devices, old(fw.chains), fw.chains, base, {id});
      reply := if ok then Success else Warning;
      if ok {
        ValidIsSound();
        InstalledLands(db.t, fw.chains, id);
      }
    }

    static function UpdatedForward(row: PortForward, targetPort: int, enabled: Option<bool>): PortForward {
      row.(targetPort := if targetPort > 0 then targetPort else row.targetPort,
           enabled := if enabled.Some? then enabled.value else row.enabled)
    }

    /** Port-forward Update: old rules out, row saved, new rules in if enabled. */
    method UpdateForward(id: nat, targetPort: int, enabled: Option<bool>) returns (reply: Reply)
      requires Valid()
      modifies db, fw
      ensures Kept()
      ensures !reply.Conflict? && !reply.Unprocessable?
      ensures reply.NotFound? <==> id !in old(db.t.forwards)
      ensures db.t == if reply.Success? || reply.Warning?
                      then Database.PutForward(
                             old(db.t), id, UpdatedForward(old(db.t.forwards)[id], targetPort, enabled))
                      else old(db.t)
      ensures OnlyTags(old(fw.chains), fw.chains, {id})
      ensures Clean() && !reply.NotFound? ==>
        if old(db.t.forwards)[id].iface in old(db.t.ifaces) then reply.Success? else reply.ServerError?
      ensures reply.Success? ==>
        if db.t.forwards[id].enabled then FullyForwarded(db.t, fw.chains, id) else NoTag(fw.chains, id)
      ensures reply.Success? ==>
        var was := old(db.t.forwards)[id];
        if enabled == Some(true) || (enabled.None? && was.enabled)
        then Lands(fw.chains, was.egress, was.proto, was.publicPort, was.targetIp,
                   if targetPort > 0 then targetPort else was.targetPort)
        else NoTag(fw.chains, id)
    {
      hide Routed, Database.Integrity, Mirror, NatExact, TagSafe, Tidy, Lands;
      if id !in db.t.forwards {
        return NotFound;
      }
      if db.t.forwards[id].iface !in db.t.ifaces {
        return ServerError;
      }
      ghost var t := db.t;
      var row := UpdatedForward(db.t.forwards[id], targetPort, enabled);
      var name := db.t.ifaces[row.iface].name;
      RemoveForward(id, name);
      ghost var between := fw.chains;
      PutForwardSafe(db.t, fw.chains, id, row);
      var ok := db.Write(Database.PutForward(db.t, id, row));
      reply := if ok then Success else ServerError;
      if ok && row.enabled {
        ok := ApplyForward(id, name);
        OnlyTagsGrow(old(fw.chains), between, fw.chains, {id}, id);
        reply := if ok then Success else Warning;
        if ok {
          ValidIsSound();
          InstalledLands(db.t, fw.chains, id);
        }
      }
      ForwardsOnly(t, db.t, kernel.devices, old(fw.chains), fw.chains, base, {id});
    }

    /** Port-forward Delete. */
    method DeleteForward(id: nat) returns (reply: Reply)
      requires Valid()
      modifies db, fw
      ensures Kept()
      ensures !reply.Conflict? && !reply.Unprocessable? && !reply.Warning?
      ensures reply.NotFound? <==> id !in old(db.t.forwards)
      ensures db.t == if reply.Success? then Database.DropForward(old(db.t), id) else old(db.t)
      ensures OnlyTags(old(fw.chains), fw.chains, {id})
      ensures Clean() && !reply.NotFound? ==>
        if old(db.t.forwards)[id].iface in old(db.t.ifaces) then reply.Success? else reply.ServerError?
      ensures reply.Success? ==> NoTag(fw.chains, id)
    {
      hide Routed, Database.Integrity, Mirror, NatExact, TagSafe, Tidy;
      if id !in db.t.forwards {
        return NotFound;
      }
      if db.t.forwards[id].iface !in db.t.ifaces {
        return ServerError;
      }
      ghost var t := db.t;
      RemoveForward(id, db.t.ifaces[db.t.forwards[id].iface].name);
      var ok := DropForwardRow(id);
      reply := if ok then Success else ServerError;
      ForwardsOnly(t, db.t, kernel.devices, old(fw.chains), fw.chains, base, {id});
    }

    // --- Boot ---

    /** One turn of BootstrapRuntime's loop; a failure is logged. */
    method ReconcileOne(i: nat, ghost done: set<nat>)
      requires Valid() && i in db.t.ifaces && Up(db.t.ifaces[i]) && i !in done
      modifies db, kernel, fw
      ensures Valid() && Monotone() && EgressOnly(old(db.t), db.t, i) && SameTags(old(fw.chains), fw.chains)
      ensures IsTidy() ==> old(IsTidy())
      ensures Clean() && old(BootedDevices(db.t, kernel.devices, done))
              ==> BootedDevices(db.t, kernel.devices, done + {i})
      ensures Clean() && old(Mirrors()) ==> Mirrors()
      ensures Clean() && IsTidy() && old(BootedNat(db.t, fw.chains, base, done))
              ==> BootedNat(db.t, fw.chains, base, done + {i})
      ensures Clean() && IsTidy() && old(NatIsExact()) ==> NatIsExact()
      ensures Clean() && IsTidy() && old(NatIsExact()) && old(Mirrors()) && old(AllExact(db.t, kernel.devices))
        ==> fw.chains == old(fw.chains) && db.t == old(db.t) && kernel.devices == old(kernel.devices)
    {
      hide Routed, Database.Integrity, Mirror, NatExact, NatBag, TagSafe, Tidy, DevicesReconciled, NatStep,
           BootedDevices, BootedNat, AllExact, NatSettled, SameTags, EgressOnly;
      ghost var t, d, c := db.t, kernel.devices, fw.chains;
      var ok := Reconcile(i);
      TidyBefore(t, db.t, base, i);
      if ok {
        BootStep(t, db.t, d, kernel.devices, c, fw.chains, base, done, i);
      }
    }

    /** The loop of BootstrapRuntime over the enabled interfaces; failures are logged. */
    method ReconcileAll()
      requires Valid()
      modifies db, kernel, fw
      ensures Valid() && Monotone() && EgressesOnly(old(db.t), db.t) && SameTags(old(fw.chains), fw.chains)
      ensures Clean() && old(kernel.devices) == map[] ==> Mirrors() && AllExact(db.t, kernel.devices)
      ensures Clean() && old(Mirrors()) ==> Mirrors()
      ensures Clean() && NatBag(old(fw.chains), base, {}) && IsTidy() ==> NatIsExact()
      ensures Clean() && old(NatIsExact()) && IsTidy() ==> NatIsExact()
      ensures Clean() && old(NatIsExact()) && IsTidy() && old(Mirrors()) && old(AllExact(db.t, kernel.devices))
        ==> fw.chains == old(fw.chains) && db.t == old(db.t) && kernel.devices == old(kernel.devices)
    {
      hide Routed, Database.Integrity, Mirror, NatExact, NatBag, TagSafe, Tidy, BootedDevices, BootedNat, EgressesOnly,
           EgressOnly, AllExact, SameTags;
      var todo := set i | i in db.t.ifaces && Up(db.t.ifaces[i]);
      ghost var t0, d0, c0, ups := db.t, kernel.devices, fw.chains, todo;
      BootStart(t0, c0, base);
      assert ups - todo == {};
      while todo != {}
        invariant todo <= ups && Valid() && Monotone() && EgressesOnly(t0, db.t) && SameTags(c0, fw.chains)
        invariant Clean() && d0 == map[] ==> BootedDevices(db.t, kernel.devices, ups - todo)
        invariant Clean() && Mirror(t0, d0) ==> Mirrors()
        invariant Clean() && NatBag(c0, base, {}) && IsTidy() ==> BootedNat(db.t, fw.chains, base, ups - todo)
        invariant Clean() && NatExact(t0, c0, base) && IsTidy() ==> NatIsExact()
        invariant Clean() && NatExact(t0, c0, base) && IsTidy() && Mirror(t0, d0) && AllExact(t0, d0)
          ==> fw.chains == c0 && db.t == t0 && kernel.devices == d0
        decreases todo
      {
        var i :| i in todo;
        ghost var t, c, done := db.t, fw.chains, ups - todo;
        EgressesOnlyRow(t0, t, i);
        ReconcileOne(i, done);
        EgressesOnlyGrow(t0, t, db.t, i);
        SameTagsGrow(c0, c, fw.chains);
        todo := todo - {i};
        assert ups - todo == done + {i};
      }
      assert ups - todo == ups;
      BootDone(t0, db.t, kernel.devices, fw.chains, base, ups);
    }

    /** ReapplyAllPortForwards: the enabled forwards of interfaces that are up. */
    method ReapplyAll()
      requires Valid()
      modifies fw
      ensures Valid() && Monotone() && OnlyTags(old(fw.chains), fw.chains, DueForwards(db.t))
      ensures fw.failures == old(fw.failures) ==> AllForwarded(db.t, fw.chains, DueForwards(db.t))
      ensures old(AllForwarded(db.t, fw.chains, DueForwards(db.t))) ==> fw.chains == old(fw.chains)
    {
      hide Routed, Database.Integrity, TagSafe, OnlyTags, AllForwarded, FullyForwarded;
      var names := map i | i in db.t.ifaces && Up(db.t.ifaces[i]) :: db.t.ifaces[i].name;
      var ids := set f | f in db.t.forwards && db.t.forwards[f].enabled && db.t.forwards[f].iface in names;
      assert ids == DueForwards(db.t);
      var todo := ids;
      DueStart(db.t, fw.chains, ids);
      assert ids - todo == {};
      while todo != {}
        invariant todo <= ids && Valid() && Monotone()
        invariant OnlyTags(old(fw.chains), fw.chains, ids)
        invariant fw.failures == old(fw.failures) ==> AllForwarded(db.t, fw.chains, ids - todo)
        invariant old(AllForwarded(db.t, fw.chains, ids)) ==> fw.chains == old(fw.chains)
        decreases todo
      {
        ghost var before, done := fw.chains, ids - todo;
        var f :| f in todo;
        var name := names[db.t.forwards[f].iface];
        Database.Named(db.t, db.t.forwards[f].iface);
        if name != "" {
          var ok := ApplyForward(f, name);
          OnlyTagsGrow(old(fw.chains), before, fw.chains, ids, f);
          DueGrow(db.t, before, fw.chains, ids, done, f);
        }
        todo := todo - {f};
        assert ids - todo == done + {f};
      }
      assert ids - todo == ids;
    }

    /** BootstrapRuntime. */
    method BootstrapRuntime()
      requires Valid()
      modifies db, kernel, fw
      ensures Kept() && EgressesOnly(old(db.t), db.t)
      ensures Clean() && old(kernel.devices) == map[] ==> Mirrors() && AllExact(db.t, kernel.devices)
      ensures Clean() && NatBag(old(fw.chains), base, {}) && IsTidy() ==> NatIsExact()
      ensures Clean() ==> AllForwarded(db.t, fw.chains, DueForwards(db.t))
      ensures Clean() && (forall f: nat :: NoTag(old(fw.chains), f)) ==> ForwardsExact(db.t, fw.chains)
      ensures Clean() && IsTidy() && old(NatIsExact()) && old(Mirrors()) && old(AllExact(db.t, kernel.devices))
              && old(ForwardsExact(db.t, fw.chains))
        ==> fw.chains == old(fw.chains) && db.t == old(db.t) && kernel.devices == old(kernel.devices)
    {
      hide Routed, Database.Integrity, Mirror, NatExact, NatBag, TagSafe, Tidy, EgressesOnly, AllExact, ForwardsExact,
           OnlyTags, SameTags, AllForwarded;
      ghost var t0, c0 := db.t, fw.chains;
      ReconcileAll();
      ghost var c1 := fw.chains;
      EgressesOnlyNext(t0, db.t);
      ReapplyAll();
      NatExactTags(db.t, c1, fw.chains, base, DueForwards(db.t));
      ForwardsBooted(db.t, c0, c1, fw.chains);
      if ForwardsExact(db.t, c0) {
        ForwardsAlreadyThere(db.t, c0);
      }
    }

    /** The other programs' rules carry none of this program's tags. */
    ghost predicate ForeignBase() {
      WellPlaced(base) && forall f: nat :: NoTag(base, f)
    }

    /** A host reboot followed by the program's start: everything the database demands is
        back. */
    method Reboot(others: Chains)
      requires Valid() && ForeignBase() && others == base
      modifies db, kernel, fw
      ensures Valid() && Monotone() && EgressesOnly(old(db.t), db.t)
      ensures Clean() ==> Mirrors() && AllExact(db.t, kernel.devices) && ForwardsExact(db.t, fw.chains)
      ensures Clean() && IsTidy() ==> NatIsExact()
    {
      hide Database.Integrity, Mirror, NatExact, TagSafe, NoTag, Tidy, EgressesOnly, AllExact, ForwardsExact;
      kernel.Reset();
      fw.Reset(others);
      ForeignIsUnmanaged(others);
      NothingTagged(db.t, others);
      BootstrapRuntime();
    }
  }
}
