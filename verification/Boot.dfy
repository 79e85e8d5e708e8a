/** Booting: what reconciling the enabled interfaces one after another makes of an empty
    kernel and of chains that hold other programs' rules only, and why it changes nothing
    on a host that is already as the database demands. */
module Boot {
  import opened Models
  import opened Firewall
  import opened Database
  import opened Kernel
  import opened KernelMirror
  import opened ForwardTags
  import opened NatShares

  /** From a to b only stored egresses changed. */
  predicate EgressesOnly(a: Tables, b: Tables) {
    && b == a.(ifaces := b.ifaces)
    && a.ifaces.Keys == b.ifaces.Keys
    && (forall i :: i in a.ifaces ==> b.ifaces[i] == a.ifaces[i].(egress := b.ifaces[i].egress))
  }

  /** Every up interface's device carries full entries. */
  ghost predicate AllExact(t: Tables, devices: map<string, Device>) {
    forall i :: i in t.ifaces && Up(t.ifaces[i]) ==>
      t.ifaces[i].name in devices && ExactPeers(t, i, devices[t.ifaces[i].name].peers)
  }

  /** Interface i is up and its device is as a full sync makes it. */
  ghost predicate BootedDevice(t: Tables, devices: map<string, Device>, i: nat) {
    && i in t.ifaces && Up(t.ifaces[i]) && t.ifaces[i].name in devices
    && DeviceMatches(t, i, devices[t.ifaces[i].name]) && ExactPeers(t, i, devices[t.ifaces[i].name].peers)
  }

  ghost predicate NamedWithin(t: Tables, done: set<nat>, name: string) {
    exists i :: i in done && UpNamed(t, i, name)
  }

  /** The interfaces in done have their devices, and there are no others. */
  ghost predicate BootedDevices(t: Tables, devices: map<string, Device>, done: set<nat>) {
    && (forall i :: i in done ==> BootedDevice(t, devices, i))
    && (forall n :: n in devices ==> NamedWithin(t, done, n))
  }

  function Within(m: map<nat, Interface>, done: set<nat>): map<nat, Interface> {
    map i | i in m && i in done :: m[i]
  }

  /** The untagged rules are the other programs' and those the interfaces in done demand. */
  ghost predicate BootedNat(t: Tables, ch: Chains, base: Chains, done: set<nat>) {
    NatBag(ch, base, Demand(Within(t.ifaces, done))) && EgressesKnown(Within(t.ifaces, done))
  }

  lemma EgressesOnlyGrow(a: Tables, b: Tables, c: Tables, id: nat)
    requires EgressesOnly(a, b) && EgressOnly(b, c, id)
    ensures EgressesOnly(a, c)
  {
  }

  lemma BootStart(t: Tables, ch: Chains, base: Chains)
    ensures EgressesOnly(t, t) && SameTags(ch, ch) && BootedDevices(t, map[], {})
    ensures NatBag(ch, base, {}) ==> BootedNat(t, ch, base, {})
  {
    assert Within(t.ifaces, {}) == map[];
    assert Demand(map[]) == {};
  }

  lemma BootDevice(a: Tables, b: Tables, before: map<string, Device>, after: map<string, Device>,
                   done: set<nat>, id: nat)
    requires Integrity(a) && BootedDevices(a, before, done) && id !in done
    requires id in a.ifaces && Up(a.ifaces[id]) && EgressOnly(a, b, id) && DevicesReconciled(b, before, after, id)
    ensures BootedDevices(b, after, done + {id})
  {
    hide Integrity, DeviceMatches, ExactPeers, BootedDevice, NamedWithin;
    var name := a.ifaces[id].name;
    ReconciledIsBooted(b, before, after, id);
    forall i | i in done + {id}
      ensures BootedDevice(b, after, i)
    {
      if i != id {
        DeviceStays(a, b, before, after, id, i);
      }
    }
    forall n | n in after
      ensures NamedWithin(b, done + {id}, n)
    {
      NameStays(a, b, done, id, n);
    }
  }

  lemma ReconciledIsBooted(t: Tables, before: map<string, Device>, after: map<string, Device>, id: nat)
    requires id in t.ifaces && Up(t.ifaces[id]) && DevicesReconciled(t, before, after, id)
    ensures BootedDevice(t, after, id)
    ensures forall n :: n in after ==> n in before || n == t.ifaces[id].name
  {
  }

  lemma DeviceStays(a: Tables, b: Tables, before: map<string, Device>, after: map<string, Device>, id: nat, i: nat)
    requires Integrity(a) && EgressOnly(a, b, id) && i != id && id in a.ifaces && BootedDevice(a, before, i)
    requires id in b.ifaces && Up(b.ifaces[id]) && DevicesReconciled(b, before, after, id)
    ensures BootedDevice(b, after, i)
  {
    UniqueParts(a);
    hide Integrity;
    assert a.ifaces[i].name != a.ifaces[id].name;
    PeersServedMoves(a, b, i, before[a.ifaces[i].name].peers);
  }

  lemma NameStays(a: Tables, b: Tables, done: set<nat>, id: nat, name: string)
    requires EgressOnly(a, b, id) && id in a.ifaces && Up(a.ifaces[id])
    requires NamedWithin(a, done, name) || name == a.ifaces[id].name
    ensures NamedWithin(b, done + {id}, name)
  {
    if name == a.ifaces[id].name {
      assert UpNamed(b, id, name);
    } else {
      var i :| i in done && UpNamed(a, i, name);
      assert UpNamed(b, i, name);
    }
  }

  lemma BootNat(a: Tables, b: Tables, before: Chains, after: Chains, base: Chains, done: set<nat>, id: nat)
    requires Integrity(a) && Tidy(b, base) && BootedNat(a, before, base, done) && id !in done
    requires id in a.ifaces && EgressOnly(a, b, id) && NatStep(base, before, after, a.ifaces[id], b.ifaces[id])
    requires Natted(b.ifaces[id]) ==> b.ifaces[id].egress != ""
    ensures BootedNat(b, after, base, done + {id})
  {
    hide Integrity, Tidy, NatBag, Natted, Owns, Demand, Fits, OwnFree;
    var w := Demand(Within(a.ifaces, done));
    TidyMoves(b, a, base);
    OthersDemandFits(a, base, id);
    WithinNotOwned(a, base, done, id);
    var grown: map<nat, Interface> := Within(b.ifaces, done + {id});
    assert grown - {id} == Within(a.ifaces, done);
    assert grown[id] == b.ifaces[id];
    DemandSplit(grown, id);
    forall i: nat | i in grown && Natted(grown[i])
      ensures grown[i].egress != ""
    {
      if i != id {
        assert i in Within(a.ifaces, done) && Within(a.ifaces, done)[i] == grown[i];
      }
    }
  }

  /** What other interfaces demand is not interface id's. */
  lemma WithinNotOwned(t: Tables, base: Chains, done: set<nat>, id: nat)
    requires Integrity(t) && Tidy(t, base) && id in t.ifaces && id !in done
    ensures var w := Demand(Within(t.ifaces, done)); Fits(t.ifaces[id], w) && Rest(w, t.ifaces[id]) == w
  {
    var w := Demand(Within(t.ifaces, done));
    forall r | r in w
      ensures !Owns(t.ifaces[id], r)
    {
      var j :| j in Within(t.ifaces, done) && r in DemandOf(Within(t.ifaces, done)[j]);
      var rest := t.ifaces - {id};
      assert j in rest && rest[j] == t.ifaces[j];
      OthersNotOwned(t, base, id, r);
    }
  }

  /** With the demanded rules exactly in place, reconciling has no NAT rule to touch. */
  lemma SettledWhenExact(t: Tables, ch: Chains, base: Chains, id: nat)
    requires Integrity(t) && Tidy(t, base) && NatExact(t, ch, base) && id in t.ifaces
    ensures NatSettled(ch, t.ifaces[id])
  {
    var i := t.ifaces[id];
    FullDemandFits(t, base, id);
    DemandSplit(t.ifaces, id);
    if Natted(i) {
      NatRulesUntagged(SubnetOf(i.address), i.name, i.egress);
      forall r | r in NatSeq(i)
        ensures Has(ch, r)
      {
        assert r in DemandOf(i);
        HasIffCounted(ch, r);
      }
    } else {
      forall r | Owns(i, r)
        ensures !Has(ch, r)
      {
        var e: string :| r in NatRules(SubnetOf(i.address), i.name, e);
        NatRulesUntagged(SubnetOf(i.address), i.name, e);
        assert r !in Demand(t.ifaces);
        HasIffCounted(ch, r);
      }
    }
  }

  lemma ExactPeersUnique(t: Tables, id: nat, m: map<Key, PeerEntry>, n: map<Key, PeerEntry>)
    requires ExactPeers(t, id, m) && ExactPeers(t, id, n)
    ensures m == n
  {
    forall k
      ensures k in m <==> k in n
      ensures k in m && k in n ==> m[k] == n[k]
    {
      if k in m {
        var p :| ServedOn(t, id, p) && t.peers[p].publicKey == k;
      }
      if k in n {
        var p :| ServedOn(t, id, p) && t.peers[p].publicKey == k;
      }
    }
  }

  /** Reconciling a device that is already exact changes nothing. */
  lemma SameDevices(t: Tables, before: map<string, Device>, after: map<string, Device>, id: nat)
    requires Mirror(t, before) && AllExact(t, before) && id in t.ifaces && Up(t.ifaces[id])
    requires DevicesReconciled(t, before, after, id)
    ensures after == before
  {
    var i := t.ifaces[id];
    var d, e := before[i.name], after[i.name];
    assert DeviceMatches(t, id, d);
    ExactPeersUnique(t, id, d.peers, e.peers);
    assert d.addresses + {i.address} == d.addresses;
    assert d == e;
    assert before[i.name := d] == before;
  }

  lemma BootDevicesDone(t: Tables, devices: map<string, Device>, done: set<nat>)
    requires BootedDevices(t, devices, done) && forall i :: i in t.ifaces && Up(t.ifaces[i]) ==> i in done
    ensures Mirror(t, devices) && AllExact(t, devices)
  {
  }

  lemma BootNatDone(t: Tables, ch: Chains, base: Chains, done: set<nat>)
    requires BootedNat(t, ch, base, done) && forall i :: i in t.ifaces && Up(t.ifaces[i]) ==> i in done
    ensures NatExact(t, ch, base)
  {
    var m := Within(t.ifaces, done);
    forall r
      ensures r in Demand(m) <==> r in Demand(t.ifaces)
    {
      if r in Demand(t.ifaces) {
        var i :| i in t.ifaces && r in DemandOf(t.ifaces[i]);
        assert i in m && m[i] == t.ifaces[i];
      }
      if r in Demand(m) {
        var i :| i in m && r in DemandOf(m[i]);
        assert m[i] == t.ifaces[i];
      }
    }
    assert Demand(m) == Demand(t.ifaces);
    forall i | i in t.ifaces && Natted(t.ifaces[i])
      ensures t.ifaces[i].egress != ""
    {
      assert i in m && m[i] == t.ifaces[i];
    }
  }

  lemma EgressesOnlyRow(a: Tables, b: Tables, i: nat)
    requires EgressesOnly(a, b) && i in a.ifaces
    ensures i in b.ifaces && (Up(b.ifaces[i]) <==> Up(a.ifaces[i]))
  {
  }

  /** One turn of the boot loop, for each thing the loop keeps. */
  lemma BootStep(a: Tables, b: Tables, d: map<string, Device>, e: map<string, Device>, c: Chains, f: Chains,
                 base: Chains, done: set<nat>, id: nat)
    requires Integrity(a) && id in a.ifaces && Up(a.ifaces[id]) && id !in done && EgressOnly(a, b, id)
    requires DevicesReconciled(b, d, e, id) && NatStep(base, c, f, a.ifaces[id], b.ifaces[id])
    requires Natted(b.ifaces[id]) ==> b.ifaces[id].egress != ""
    requires NatSettled(c, a.ifaces[id]) ==> f == c && b == a
    ensures BootedDevices(a, d, done) ==> BootedDevices(b, e, done + {id})
    ensures Mirror(a, d) ==> Mirror(b, e)
    ensures Tidy(b, base) ==> Tidy(a, base)
    ensures Tidy(b, base) && BootedNat(a, c, base, done) ==> BootedNat(b, f, base, done + {id})
    ensures Tidy(b, base) && NatExact(a, c, base) ==> NatExact(b, f, base)
    ensures Tidy(b, base) && NatExact(a, c, base) && Mirror(a, d) && AllExact(a, d) ==> f == c && b == a && e == d
  {
    hide Integrity, BootedDevices, Mirror, Tidy, BootedNat, NatExact, AllExact, DevicesReconciled, NatStep, NatSettled;
    if BootedDevices(a, d, done) {
      BootDevice(a, b, d, e, done, id);
    }
    if Mirror(a, d) {
      Resynced(a, b, d, e, id);
    }
    if Tidy(b, base) {
      TidyMoves(b, a, base);
      if BootedNat(a, c, base, done) {
        BootNat(a, b, c, f, base, done, id);
      }
      if NatExact(a, c, base) {
        NatAfterResync(a, b, c, f, base, id);
        if Mirror(a, d) && AllExact(a, d) {
          SettledWhenExact(a, c, base, id);
          SameDevices(a, d, e, id);
        }
      }
    }
  }

  lemma TidyBefore(a: Tables, b: Tables, base: Chains, id: nat)
    requires EgressOnly(a, b, id)
    ensures Tidy(b, base) ==> Tidy(a, base)
  {
    if Tidy(b, base) {
      TidyMoves(b, a, base);
    }
  }

  lemma BootDone(t: Tables, b: Tables, devices: map<string, Device>, ch: Chains, base: Chains, ups: set<nat>)
    requires EgressesOnly(t, b) && forall i :: i in t.ifaces && Up(t.ifaces[i]) ==> i in ups
    ensures BootedDevices(b, devices, ups) ==> Mirror(b, devices) && AllExact(b, devices)
    ensures BootedNat(b, ch, base, ups) ==> NatExact(b, ch, base)
  {
    if BootedDevices(b, devices, ups) {
      BootDevicesDone(b, devices, ups);
    }
    if BootedNat(b, ch, base, ups) {
      BootNatDone(b, ch, base, ups);
    }
  }

  // --- Forwards at boot ---

  /** The forwards ReapplyAllPortForwards installs; the peer's state plays no part. */
  function DueForwards(t: Tables): set<nat> {
    set f | f in t.forwards && t.forwards[f].enabled && t.forwards[f].iface in t.ifaces
      && Up(t.ifaces[t.forwards[f].iface])
  }

  lemma DueStart(t: Tables, ch: Chains, ids: set<nat>)
    ensures OnlyTags(ch, ch, ids) && AllForwarded(t, ch, {})
  {
  }

  lemma DueGrow(t: Tables, a: Chains, b: Chains, ids: set<nat>, done: set<nat>, f: nat)
    requires OnlyTags(a, b, {f}) && f in ids
    ensures AllForwarded(t, a, ids) ==> FullyForwarded(t, a, f)
    ensures AllForwarded(t, a, done) && FullyForwarded(t, b, f) ==> AllForwarded(t, b, done + {f})
  {
    if AllForwarded(t, a, done) && FullyForwarded(t, b, f) {
      AllForwardedGrow(t, a, b, done, f);
    }
  }

  lemma EgressesOnlyNext(a: Tables, b: Tables)
    requires EgressesOnly(a, b)
    ensures a.nextId == b.nextId && DueForwards(a) == DueForwards(b)
  {
  }

  /** The tagged rules are exactly those of the due forwards. */
  ghost predicate ForwardsExact(t: Tables, ch: Chains) {
    forall f: nat :: if f in DueForwards(t) then FullyForwarded(t, ch, f) else NoTag(ch, f)
  }

  /** From chains without tagged rules, boot installs exactly the due forwards'. */
  lemma ForwardsBooted(t: Tables, before: Chains, between: Chains, after: Chains)
    requires SameTags(before, between) && OnlyTags(between, after, DueForwards(t))
    ensures AllForwarded(t, after, DueForwards(t)) && (forall f: nat :: NoTag(before, f)) ==> ForwardsExact(t, after)
  {
    if AllForwarded(t, after, DueForwards(t)) && forall f: nat :: NoTag(before, f) {
      forall f: nat | f !in DueForwards(t)
        ensures NoTag(after, f)
      {
        assert NoTag(before, f) && SameTag(before, between, f) && SameTag(between, after, f);
      }
    }
  }

  lemma NothingTagged(t: Tables, ch: Chains)
    requires forall f: nat :: NoTag(ch, f)
    ensures TagSafe(t, ch) && NatBag(ch, ch, {})
  {
    forall r: Rule, f: nat | HasTag(r, f)
      ensures Count(ch, r) == 0
    {
      assert NoTag(ch, f);
    }
  }

  lemma ForwardsAlreadyThere(t: Tables, ch: Chains)
    requires ForwardsExact(t, ch)
    ensures AllForwarded(t, ch, DueForwards(t))
  {
  }
}
