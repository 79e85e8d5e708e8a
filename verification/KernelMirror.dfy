/** When the kernel's devices mirror the database, and what a change to one peer or one
    interface, made on the device one entry at a time or in full, does to that. */
module KernelMirror {
  import opened Ipv4
  import opened Models
  import opened Database
  import opened Kernel

  predicate Up(i: Interface) {
    !i.trashed && i.enabled
  }

  predicate Active(p: Peer) {
    !p.trashed && p.enabled
  }

  // --- The kernel mirrors the database ---

  predicate ServedOn(t: Tables, id: nat, p: nat) {
    p in t.peers && t.peers[p].iface == id && Active(t.peers[p])
  }

  /** A device holds exactly the live enabled peers of interface id. */
  ghost predicate PeersServed(t: Tables, id: nat, m: map<Key, PeerEntry>) {
    && (forall p :: ServedOn(t, id, p) ==> t.peers[p].publicKey in m && Serves(m[t.peers[p].publicKey], t.peers[p]))
    && (forall k :: k in m ==> exists p :: ServedOn(t, id, p) && t.peers[p].publicKey == k)
  }

  ghost predicate DeviceMatches(t: Tables, id: nat, d: Device)
    requires id in t.ifaces
  {
    var i := t.ifaces[id];
    d.privateKey == i.privateKey && d.listenPort == i.listenPort && i.address in d.addresses
      && PeersServed(t, id, d.peers)
  }

  ghost predicate UpNamed(t: Tables, id: nat, name: string) {
    id in t.ifaces && Up(t.ifaces[id]) && t.ifaces[id].name == name
  }

  /** Every live enabled interface has its device, and there is no other device. */
  ghost predicate Mirror(t: Tables, devices: map<string, Device>) {
    && (forall i :: i in t.ifaces && Up(t.ifaces[i])
          ==> t.ifaces[i].name in devices && DeviceMatches(t, i, devices[t.ifaces[i].name]))
    && (forall n :: n in devices ==> exists i :: UpNamed(t, i, n))
  }

  /** Mirror, except for interface id and the device called name. */
  ghost predicate MirrorBut(t: Tables, devices: map<string, Device>, id: nat, name: string) {
    && (forall i :: i in t.ifaces && i != id && Up(t.ifaces[i])
          ==> t.ifaces[i].name != name && t.ifaces[i].name in devices && DeviceMatches(t, i, devices[t.ifaces[i].name]))
    && (forall n :: n in devices && n != name ==> exists i :: i != id && UpNamed(t, i, n))
  }

  /** Two sets of tables agree on everything the devices of other interfaces depend on. */
  predicate SameElsewhere(a: Tables, b: Tables, id: nat) {
    && a.ifaces - {id} == b.ifaces - {id}
    && (forall p :: p in a.peers && a.peers[p].iface != id ==> p in b.peers && b.peers[p] == a.peers[p])
    && (forall p :: p in b.peers && b.peers[p].iface != id ==> p in a.peers && a.peers[p] == b.peers[p])
  }

  lemma SameElsewhereRow(a: Tables, b: Tables, id: nat, i: nat)
    requires SameElsewhere(a, b, id) && i != id
    ensures i in a.ifaces <==> i in b.ifaces
    ensures i in a.ifaces ==> a.ifaces[i] == b.ifaces[i]
  {
    assert i in a.ifaces <==> i in a.ifaces - {id};
    assert i in b.ifaces <==> i in b.ifaces - {id};
    if i in a.ifaces {
      assert (a.ifaces - {id})[i] == a.ifaces[i];
      assert (b.ifaces - {id})[i] == b.ifaces[i];
    }
  }

  lemma DeviceElsewhere(a: Tables, b: Tables, id: nat, i: nat, d: Device)
    requires SameElsewhere(a, b, id) && i != id && i in a.ifaces && DeviceMatches(a, i, d)
    ensures i in b.ifaces && DeviceMatches(b, i, d)
  {
    SameElsewhereRow(a, b, id, i);
    forall p
      ensures ServedOn(a, i, p) <==> ServedOn(b, i, p)
      ensures ServedOn(a, i, p) ==> a.peers[p] == b.peers[p]
    {
    }
  }

  /** Forgetting about interface id: a change confined to it leaves the rest mirrored. */
  lemma MirrorForget(a: Tables, b: Tables, devices: map<string, Device>, id: nat, name: string)
    requires Mirror(a, devices) && SameElsewhere(a, b, id)
    requires id in a.ifaces && a.ifaces[id].name == name && UniqueNames(a)
    ensures MirrorBut(b, devices, id, name)
  {
    forall i | i in b.ifaces && i != id && Up(b.ifaces[i])
      ensures b.ifaces[i].name != name && b.ifaces[i].name in devices && DeviceMatches(b, i, devices[b.ifaces[i].name])
    {
      SameElsewhereRow(a, b, id, i);
      DeviceElsewhere(a, b, id, i, devices[a.ifaces[i].name]);
    }
    forall n | n in devices && n != name
      ensures exists i :: i != id && UpNamed(b, i, n)
    {
      var i :| UpNamed(a, i, n);
      SameElsewhereRow(a, b, id, i);
      assert UpNamed(b, i, n);
    }
  }

  /** The same for an interface that did not exist before. */
  lemma MirrorForgetNew(a: Tables, b: Tables, devices: map<string, Device>, id: nat, name: string)
    requires Mirror(a, devices) && SameElsewhere(a, b, id) && id !in a.ifaces && !NameTaken(a, name)
    ensures MirrorBut(b, devices, id, name)
  {
    forall i | i in b.ifaces && i != id && Up(b.ifaces[i])
      ensures b.ifaces[i].name != name && b.ifaces[i].name in devices && DeviceMatches(b, i, devices[b.ifaces[i].name])
    {
      SameElsewhereRow(a, b, id, i);
      DeviceElsewhere(a, b, id, i, devices[a.ifaces[i].name]);
    }
    forall n | n in devices && n != name
      ensures exists i :: i != id && UpNamed(b, i, n)
    {
      var i :| UpNamed(a, i, n);
      SameElsewhereRow(a, b, id, i);
      assert UpNamed(b, i, n);
    }
  }

  lemma MirrorButMoves(a: Tables, b: Tables, devices: map<string, Device>, id: nat, name: string)
    requires MirrorBut(a, devices, id, name) && SameElsewhere(a, b, id)
    ensures MirrorBut(b, devices, id, name)
  {
    forall i | i in b.ifaces && i != id && Up(b.ifaces[i])
      ensures b.ifaces[i].name != name && b.ifaces[i].name in devices && DeviceMatches(b, i, devices[b.ifaces[i].name])
    {
      SameElsewhereRow(a, b, id, i);
      DeviceElsewhere(a, b, id, i, devices[a.ifaces[i].name]);
    }
    forall n | n in devices && n != name
      ensures exists i :: i != id && UpNamed(b, i, n)
    {
      var i :| i != id && UpNamed(a, i, n);
      SameElsewhereRow(a, b, id, i);
      assert UpNamed(b, i, n);
    }
  }

  /** Putting the right device back completes the mirror. */
  lemma MirrorWithDevice(t: Tables, devices: map<string, Device>, id: nat, name: string, d: Device)
    requires MirrorBut(t, devices, id, name) && UpNamed(t, id, name) && DeviceMatches(t, id, d)
    ensures Mirror(t, devices[name := d])
  {
    var after := devices[name := d];
    forall n | n in after
      ensures exists i :: UpNamed(t, i, n)
    {
      if n != name {
        var i :| i != id && UpNamed(t, i, n);
      }
    }
  }

  /** Removing the device completes the mirror of an interface that is not up. */
  lemma MirrorWithoutDevice(t: Tables, devices: map<string, Device>, id: nat, name: string)
    requires MirrorBut(t, devices, id, name) && (id in t.ifaces ==> !Up(t.ifaces[id]))
    ensures Mirror(t, devices - {name})
  {
    var after := devices - {name};
    forall n | n in after
      ensures exists i :: UpNamed(t, i, n)
    {
      var i :| i != id && UpNamed(t, i, n);
    }
  }

  /** The mirror ignores the forwards and an interface's egress. */
  lemma MirrorSame(a: Tables, b: Tables, devices: map<string, Device>)
    requires Mirror(a, devices) && a.ifaces == b.ifaces && a.peers == b.peers
    ensures Mirror(b, devices)
  {
    forall i | i in b.ifaces && Up(b.ifaces[i])
      ensures b.ifaces[i].name in devices && DeviceMatches(b, i, devices[b.ifaces[i].name])
    {
      assert DeviceMatches(a, i, devices[a.ifaces[i].name]);
      assert forall p :: ServedOn(a, i, p) <==> ServedOn(b, i, p);
    }
    forall n | n in devices
      ensures exists i :: UpNamed(b, i, n)
    {
      var i :| UpNamed(a, i, n);
      assert UpNamed(b, i, n);
    }
  }

  /** A handshake changes nothing the database determines. */
  lemma MirrorShaken(t: Tables, devices: map<string, Device>, name: string, key: Key, session: nat)
    requires Mirror(t, devices)
    ensures Mirror(t, ShakenHands(devices, name, key, session))
  {
    var after := ShakenHands(devices, name, key, session);
    assert after.Keys == devices.Keys;
    forall i | i in t.ifaces && Up(t.ifaces[i])
      ensures DeviceMatches(t, i, after[t.ifaces[i].name])
    {
      assert DeviceMatches(t, i, devices[t.ifaces[i].name]);
    }
  }

  lemma UniqueParts(t: Tables)
    requires Integrity(t)
    ensures UniqueNames(t) && UniqueKeys(t) && UniqueIps(t)
    ensures t.nextId !in t.peers && t.nextId !in t.ifaces && t.nextId !in t.forwards
  {
  }

  // --- Peers on one device ---

  /** The rows Preload("Peers") returns, in some order. */
  ghost predicate RowsOf(t: Tables, id: nat, rows: seq<Peer>) {
    && (forall p :: p in t.peers && t.peers[p].iface == id && !t.peers[p].trashed ==> t.peers[p] in rows)
    && (forall r :: r in rows ==> exists p :: p in t.peers && t.peers[p] == r && r.iface == id && !r.trashed)
  }

  /** A full sync serves exactly the live enabled peers, with exact keepalives. */
  lemma FullSyncServes(t: Tables, id: nat, rows: seq<Peer>)
    requires Integrity(t) && RowsOf(t, id, rows)
    ensures var m := UpsertAll(map[], Configs(EnabledOf(rows)));
            PeersServed(t, id, m) && forall p :: ServedOn(t, id, p) ==> m[t.peers[p].publicKey] == FullEntry(t.peers[p])
  {
    var on := EnabledOf(rows);
    EnabledOfIff(rows);
    forall a, b | a in on && b in on && (a.publicKey == b.publicKey || a.ip == b.ip)
      ensures a == b
    {
      var p :| p in t.peers && t.peers[p] == a && a.iface == id;
      var q :| q in t.peers && t.peers[q] == b && b.iface == id;
      assert p == q;
    }
    FullSyncExact(on);
    var m := UpsertAll(map[], Configs(on));
    forall p | ServedOn(t, id, p)
      ensures t.peers[p].publicKey in m && m[t.peers[p].publicKey] == FullEntry(t.peers[p])
    {
      assert t.peers[p] in on;
    }
    forall k | k in m
      ensures exists p :: ServedOn(t, id, p) && t.peers[p].publicKey == k
    {
      var r :| r in on && r.publicKey == k;
      var p :| p in t.peers && t.peers[p] == r && r.iface == id && !r.trashed;
      assert ServedOn(t, id, p);
    }
  }

  /** Two tables that differ, for interface id, in peer p at most. */
  predicate PeersSameBut(a: Tables, b: Tables, id: nat, p: nat) {
    && (forall q :: q in a.peers && q != p && a.peers[q].iface == id ==> q in b.peers && b.peers[q] == a.peers[q])
    && (forall q :: q in b.peers && q != p && b.peers[q].iface == id ==> q in a.peers && a.peers[q] == b.peers[q])
  }

  /** The update of row p over tables a to tables b that syncPeer is called after. */
  ghost predicate PeerUpdate(a: Tables, b: Tables, id: nat, p: nat) {
    && PeersSameBut(a, b, id, p) && ServedOn(b, id, p)
    && UniqueKeys(a) && UniqueKeys(b) && UniqueIps(b)
    && (p in a.peers ==> a.peers[p].iface == id && a.peers[p].publicKey == b.peers[p].publicKey
                         && a.peers[p].presharedKey == b.peers[p].presharedKey)
    && (p !in a.peers ==> !KeyTaken(a, b.peers[p].publicKey))
  }

  /** Every other entry belongs to another peer, whose address is different. */
  lemma OtherEntry(a: Tables, b: Tables, id: nat, m: map<Key, PeerEntry>, p: nat, k: Key) returns (q: nat)
    requires PeersServed(a, id, m) && PeerUpdate(a, b, id, p)
    requires k in m && k != b.peers[p].publicKey
    ensures q != p && ServedOn(b, id, q) && b.peers[q].publicKey == k
    ensures Upsert(m, BuildPeerConfig(b.peers[p]))[k] == m[k]
  {
    q :| ServedOn(a, id, q) && a.peers[q].publicKey == k;
    assert q != p && ServedOn(b, id, q);
    assert Serves(m[k], a.peers[q]);
    assert b.peers[q].ip != b.peers[p].ip;
    UpsertFrame(m, b.peers[p], k);
  }

  /** The updated entry serves the row: no other preshared key was there before. */
  lemma OwnEntry(a: Tables, b: Tables, id: nat, m: map<Key, PeerEntry>, p: nat)
    requires PeersServed(a, id, m) && PeerUpdate(a, b, id, p)
    ensures Serves(Upsert(m, BuildPeerConfig(b.peers[p]))[b.peers[p].publicKey], b.peers[p])
  {
    var row := b.peers[p];
    if row.publicKey in m {
      var q :| ServedOn(a, id, q) && a.peers[q].publicKey == row.publicKey;
      assert q == p;
    }
    UpsertExactIff(m, row);
  }

  /** syncPeer's update lands where it should, and touches no other entry. */
  lemma UpsertServes(a: Tables, b: Tables, id: nat, m: map<Key, PeerEntry>, p: nat)
    requires PeersServed(a, id, m) && PeerUpdate(a, b, id, p)
    ensures PeersServed(b, id, Upsert(m, BuildPeerConfig(b.peers[p])))
    ensures forall k :: k in m && k != b.peers[p].publicKey ==> Upsert(m, BuildPeerConfig(b.peers[p]))[k] == m[k]
  {
    var after := Upsert(m, BuildPeerConfig(b.peers[p]));
    OwnEntry(a, b, id, m, p);
    forall q | ServedOn(b, id, q)
      ensures b.peers[q].publicKey in after && Serves(after[b.peers[q].publicKey], b.peers[q])
    {
      if q != p {
        assert ServedOn(a, id, q);
        var _ := OtherEntry(a, b, id, m, p, b.peers[q].publicKey);
      }
    }
    forall k | k in after
      ensures exists q :: ServedOn(b, id, q) && b.peers[q].publicKey == k
      ensures k in m && k != b.peers[p].publicKey ==> after[k] == m[k]
    {
      if k != b.peers[p].publicKey {
        var q := OtherEntry(a, b, id, m, p, k);
      }
    }
  }

  /** syncPeer's removal: without p's key the device serves everyone else. */
  lemma RemoveServes(a: Tables, b: Tables, id: nat, m: map<Key, PeerEntry>, p: nat, key: Key)
    requires PeersServed(a, id, m) && PeersSameBut(a, b, id, p) && !ServedOn(b, id, p)
    requires UniqueKeys(a) && p in a.peers && a.peers[p].publicKey == key
    ensures PeersServed(b, id, m - {key})
  {
    forall q | ServedOn(b, id, q)
      ensures b.peers[q].publicKey in m - {key} && Serves((m - {key})[b.peers[q].publicKey], b.peers[q])
    {
      assert q != p && ServedOn(a, id, q);
      assert a.peers[q].publicKey != key;
    }
    forall k | k in m - {key}
      ensures exists q :: ServedOn(b, id, q) && b.peers[q].publicKey == k
    {
      var q :| ServedOn(a, id, q) && a.peers[q].publicKey == k;
      assert q != p;
      assert ServedOn(b, id, q);
    }
  }

  /** Two devices that serve the same rows agree on every peer's existence, allowed address
      and preshared key, and on every keepalive asked for. */
  lemma ServedAgree(t: Tables, id: nat, m: map<Key, PeerEntry>, n: map<Key, PeerEntry>)
    requires PeersServed(t, id, m) && PeersServed(t, id, n)
    ensures m.Keys == n.Keys
    ensures forall p :: ServedOn(t, id, p) ==>
      var k := t.peers[p].publicKey;
      m[k].allowed == n[k].allowed && m[k].presharedKey == n[k].presharedKey
      && (t.peers[p].keepalive > 0 ==> m[k].keepalive == n[k].keepalive)
  {
    forall k
      ensures k in m <==> k in n
    {
      if k in m {
        var p :| ServedOn(t, id, p) && t.peers[p].publicKey == k;
      }
      if k in n {
        var p :| ServedOn(t, id, p) && t.peers[p].publicKey == k;
      }
    }
  }

  /** So a device kept by single updates is what a full sync would have made of it. */
  lemma IncrementalAgreesWithFull(t: Tables, id: nat, m: map<Key, PeerEntry>, rows: seq<Peer>)
    requires Integrity(t) && PeersServed(t, id, m) && RowsOf(t, id, rows)
    ensures var full := UpsertAll(map[], Configs(EnabledOf(rows)));
            full.Keys == m.Keys && forall p :: ServedOn(t, id, p) ==>
              var k := t.peers[p].publicKey;
              m[k].allowed == full[k].allowed && m[k].presharedKey == full[k].presharedKey
              && (t.peers[p].keepalive > 0 ==> m[k].keepalive == full[k].keepalive)
  {
    FullSyncServes(t, id, rows);
    ServedAgree(t, id, m, UpsertAll(map[], Configs(EnabledOf(rows))));
  }

  // --- One synced peer ---

  /** syncPeer on an enabled interface: the link is ensured and one entry changes. */
  function Synced(devices: map<string, Device>, i: Interface, row: Peer, remove: bool): map<string, Device> {
    var l := Linked(devices, i.name, i.address, i.mtu);
    var d := l[i.name];
    l[i.name := d.(peers := if remove || !row.enabled then d.peers - {row.publicKey}
      else Upsert(d.peers, BuildPeerConfig(row)))]
  }

  /** Only the entry for key on device name may differ. */
  ghost predicate OnlyEntry(before: map<string, Device>, after: map<string, Device>, name: string, key: Key) {
    && after.Keys == before.Keys
    && (forall n :: n in before && n != name ==> after[n] == before[n])
    && (forall k :: name in before && k != key && k in before[name].peers
          ==> k in after[name].peers && after[name].peers[k] == before[name].peers[k])
    && (forall k :: name in after && k != key && k in after[name].peers ==> name in before && k in before[name].peers)
  }

  /** No device but the one called name changed. */
  predicate OtherDevices(before: map<string, Device>, after: map<string, Device>, name: string) {
    after - {name} == before - {name}
  }

  lemma OtherDevicesSelf(devices: map<string, Device>, name: string)
    ensures OtherDevices(devices, devices, name)
  {
  }

  lemma OtherDevicesGone(devices: map<string, Device>, name: string)
    ensures OtherDevices(devices, devices - {name}, name)
  {
    assert (devices - {name}) - {name} == devices - {name};
  }

  lemma DevicesSelf(devices: map<string, Device>, name: string, key: Key)
    ensures OnlyEntry(devices, devices, name, key) && OtherDevices(devices, devices, name)
  {
  }

  lemma LinkedPresent(devices: map<string, Device>, i: Interface)
    requires i.name in devices && i.address in devices[i.name].addresses
    ensures Linked(devices, i.name, i.address, i.mtu) == devices
  {
    var d := devices[i.name];
    assert d.addresses + {i.address} == d.addresses;
    assert devices[i.name := d] == devices;
  }

  /** Giving one up interface's device the peers its rows now ask for keeps the mirror. */
  lemma PeersReplaced(a: Tables, b: Tables, devices: map<string, Device>, id: nat, peers: map<Key, PeerEntry>)
    requires Mirror(a, devices) && UniqueNames(a)
    requires SameElsewhere(a, b, id) && id in a.ifaces && id in b.ifaces && a.ifaces[id] == b.ifaces[id]
             && Up(b.ifaces[id])
    requires PeersServed(b, id, peers)
    ensures var i := b.ifaces[id];
            i.name in devices && i.address in devices[i.name].addresses && PeersServed(a, id, devices[i.name].peers)
            && Mirror(b, devices[i.name := devices[i.name].(peers := peers)])
  {
    var i := b.ifaces[id];
    MirrorDevice(a, devices, id);
    MirrorForget(a, b, devices, id, i.name);
    hide Mirror, MirrorBut, PeersServed, SameElsewhere, UniqueNames;
    MirrorWithDevice(b, devices, id, i.name, devices[i.name].(peers := peers));
  }

  lemma MirrorDevice(t: Tables, devices: map<string, Device>, id: nat)
    requires Mirror(t, devices) && id in t.ifaces && Up(t.ifaces[id])
    ensures t.ifaces[id].name in devices && DeviceMatches(t, id, devices[t.ifaces[id].name])
  {
  }

  lemma OneEntryChanged(devices: map<string, Device>, name: string, peers: map<Key, PeerEntry>, key: Key)
    requires name in devices
    requires forall k :: k != key ==> (k in peers <==> k in devices[name].peers)
    requires forall k :: k != key && k in peers ==> peers[k] == devices[name].peers[k]
    ensures OnlyEntry(devices, devices[name := devices[name].(peers := peers)], name, key)
  {
  }

  /** Adding or updating one peer incrementally keeps the mirror and every other entry. */
  lemma SyncAdds(a: Tables, b: Tables, devices: map<string, Device>, id: nat, p: nat)
    requires Integrity(a) && Mirror(a, devices)
    requires SameElsewhere(a, b, id) && id in a.ifaces && id in b.ifaces && a.ifaces[id] == b.ifaces[id]
             && Up(b.ifaces[id])
    requires PeerUpdate(a, b, id, p)
    ensures var after := Synced(devices, b.ifaces[id], b.peers[p], false);
            Mirror(b, after) && OnlyEntry(devices, after, b.ifaces[id].name, b.peers[p].publicKey)
  {
    UniqueParts(a);
    hide Integrity, Mirror, UniqueNames, UniqueKeys, UniqueIps, SameElsewhere, PeersServed, OnlyEntry;
    var i := b.ifaces[id];
    MirrorDevice(a, devices, id);
    var d := devices[i.name];
    var peers := Upsert(d.peers, BuildPeerConfig(b.peers[p]));
    LinkedPresent(devices, i);
    UpsertServes(a, b, id, d.peers, p);
    PeersReplaced(a, b, devices, id, peers);
    OneEntryChanged(devices, i.name, peers, b.peers[p].publicKey);
  }

  /** Removing one peer incrementally keeps the mirror and every other entry. */
  lemma SyncRemoves(a: Tables, b: Tables, devices: map<string, Device>, id: nat, p: nat, row: Peer, remove: bool)
    requires Integrity(a) && Mirror(a, devices)
    requires SameElsewhere(a, b, id) && id in a.ifaces && id in b.ifaces && a.ifaces[id] == b.ifaces[id]
             && Up(b.ifaces[id])
    requires PeersSameBut(a, b, id, p) && !ServedOn(b, id, p)
    requires p in a.peers && a.peers[p].publicKey == row.publicKey && (remove || !row.enabled)
    ensures var after := Synced(devices, b.ifaces[id], row, remove);
            Mirror(b, after) && OnlyEntry(devices, after, b.ifaces[id].name, row.publicKey)
  {
    UniqueParts(a);
    hide Integrity, Mirror, UniqueNames, UniqueKeys, UniqueIps, SameElsewhere, PeersServed, OnlyEntry, PeersSameBut;
    var i := b.ifaces[id];
    MirrorDevice(a, devices, id);
    var d := devices[i.name];
    LinkedPresent(devices, i);
    RemoveServes(a, b, id, d.peers, p, row.publicKey);
    PeersReplaced(a, b, devices, id, d.peers - {row.publicKey});
    OneEntryChanged(devices, i.name, d.peers - {row.publicKey}, row.publicKey);
  }

  /** Peer rows of an interface that is not up are on no device. */
  lemma MirrorDown(a: Tables, b: Tables, devices: map<string, Device>, id: nat)
    requires Mirror(a, devices) && SameElsewhere(a, b, id) && UniqueNames(a)
    requires id in a.ifaces && id in b.ifaces && a.ifaces[id] == b.ifaces[id] && !Up(b.ifaces[id])
    ensures Mirror(b, devices)
  {
    var name := a.ifaces[id].name;
    assert forall i :: !UpNamed(a, i, name);
    MirrorForget(a, b, devices, id, name);
    MirrorWithoutDevice(b, devices, id, name);
    assert devices - {name} == devices;
  }

  // --- A reconciled interface ---

  /** From a to b at most interface id's stored egress changed. */
  predicate EgressOnly(a: Tables, b: Tables, id: nat) {
    b == a || (id in a.ifaces && id in b.ifaces
      && b == PutInterface(a, id, a.ifaces[id].(egress := b.ifaces[id].egress)))
  }

  /** A device rebuilt in full: the live enabled peers with their full entries, no others. */
  ghost predicate ExactPeers(t: Tables, id: nat, m: map<Key, PeerEntry>) {
    PeersServed(t, id, m) && forall p :: ServedOn(t, id, p) ==> m[t.peers[p].publicKey] == FullEntry(t.peers[p])
  }

  ghost predicate DevicesReconciled(t: Tables, before: map<string, Device>, after: map<string, Device>, id: nat)
    requires id in t.ifaces
  {
    var i := t.ifaces[id];
    if i.enabled then
      i.name in after && after == before[i.name := after[i.name]]
      && DeviceMatches(t, id, after[i.name]) && ExactPeers(t, id, after[i.name].peers)
      && (i.name in before ==> after[i.name].mtu == before[i.name].mtu
                               && after[i.name].addresses == before[i.name].addresses + {i.address})
      && (i.name !in before ==> after[i.name].mtu == i.mtu && after[i.name].addresses == {i.address})
    else after == before - {i.name}
  }

  /** Ensuring the link and configuring it with all rows rebuilds that device and no other. */
  lemma RebuiltInFull(t: Tables, before: map<string, Device>, id: nat, rows: seq<Peer>)
    requires Integrity(t) && id in t.ifaces && t.ifaces[id].enabled && RowsOf(t, id, rows)
    ensures var i := t.ifaces[id];
            var linked := Linked(before, i.name, i.address, i.mtu);
            var after := linked[i.name := Replaced(linked[i.name], i, EnabledOf(rows))];
            && OtherDevices(before, linked, i.name) && OtherDevices(before, after, i.name)
            && DevicesReconciled(t, before, after, id)
  {
    FullSyncServes(t, id, rows);
    hide Integrity, RowsOf, PeersServed, UpsertAll;
  }

  lemma PeersServedMoves(a: Tables, b: Tables, id: nat, m: map<Key, PeerEntry>)
    requires a.peers == b.peers
    ensures PeersServed(a, id, m) ==> PeersServed(b, id, m)
    ensures ExactPeers(a, id, m) ==> ExactPeers(b, id, m)
  {
    assert forall p :: ServedOn(a, id, p) <==> ServedOn(b, id, p);
  }

  /** The devices do not depend on the stored egress. */
  lemma ReconciledMoves(a: Tables, b: Tables, before: map<string, Device>, after: map<string, Device>, id: nat)
    requires EgressOnly(a, b, id) && id in a.ifaces && DevicesReconciled(a, before, after, id)
    ensures id in b.ifaces && DevicesReconciled(b, before, after, id)
  {
    if a.ifaces[id].enabled {
      PeersServedMoves(a, b, id, after[a.ifaces[id].name].peers);
    }
  }

  /** Reconciling a live interface completes the mirror. */
  lemma ReconciledMirror(t: Tables, before: map<string, Device>, after: map<string, Device>, id: nat, name: string)
    requires Live(t, id) && t.ifaces[id].name == name
    requires MirrorBut(t, before, id, name) && DevicesReconciled(t, before, after, id)
    ensures Mirror(t, after)
  {
    if t.ifaces[id].enabled {
      assert UpNamed(t, id, name);
      MirrorWithDevice(t, before, id, name, after[name]);
    } else {
      MirrorWithoutDevice(t, before, id, name);
    }
  }

  // --- What syncPeer is told ---

  /** What syncPeer is told about a change to peer p of interface id: an enabled row to put on
      the device, or a row to take off it. */
  ghost predicate SyncFits(a: Tables, b: Tables, id: nat, p: nat, row: Peer, remove: bool) {
    && SameElsewhere(a, b, id) && id in a.ifaces && id in b.ifaces && a.ifaces[id] == b.ifaces[id]
    && (!remove && row.enabled && !b.ifaces[id].trashed ==> PeerUpdate(a, b, id, p) && row == b.peers[p])
    && (remove || !row.enabled ==> PeersSameBut(a, b, id, p) && !ServedOn(b, id, p)
                                   && p in a.peers && a.peers[p].publicKey == row.publicKey)
  }

  /** The mirror is kept, and on an enabled interface only that peer's entry may differ. */
  lemma SyncedMirror(a: Tables, b: Tables, before: map<string, Device>, after: map<string, Device>,
                     id: nat, p: nat, row: Peer, remove: bool)
    requires Integrity(a) && Integrity(b) && Mirror(a, before) && SyncFits(a, b, id, p, row, remove)
    requires after == if Up(b.ifaces[id]) then Synced(before, b.ifaces[id], row, remove) else before
    ensures Mirror(b, after)
    ensures Up(b.ifaces[id]) ==> OnlyEntry(before, after, b.ifaces[id].name, row.publicKey)
  {
    if !Up(b.ifaces[id]) {
      MirrorDown(a, b, before, id);
    } else if remove || !row.enabled {
      SyncRemoves(a, b, before, id, p, row, remove);
    } else {
      SyncAdds(a, b, before, id, p);
    }
  }

  // --- What a device shows of one peer ---

  /** The device has an entry for the key exactly if on; then with this address and preshared
      key and, where one is asked for, this keepalive. */
  predicate Shows(devices: map<string, Device>, name: string, key: Key, on: bool,
                  ip: Address, psk: Key, keepalive: int)
  {
    && name in devices && (key in devices[name].peers <==> on)
    && (on ==> var e := devices[name].peers[key];
               e.allowed == {ip} && e.presharedKey == psk && (keepalive > 0 ==> e.keepalive == keepalive))
  }

  lemma PeerShown(t: Tables, devices: map<string, Device>, p: nat)
    requires Integrity(t) && Mirror(t, devices)
    requires p in t.peers && t.peers[p].iface in t.ifaces && Up(t.ifaces[t.peers[p].iface])
    ensures var row := t.peers[p];
            Shows(devices, t.ifaces[row.iface].name, row.publicKey, Active(row), row.ip, row.presharedKey,
                  row.keepalive)
  {
    UniqueParts(t);
    MirrorDevice(t, devices, t.peers[p].iface);
    hide Integrity, Mirror;
  }

  /** No row has the key, so the device does not either. */
  lemma KeyNotShown(t: Tables, devices: map<string, Device>, id: nat, key: Key)
    requires Mirror(t, devices) && id in t.ifaces && Up(t.ifaces[id]) && !KeyTaken(t, key)
    ensures t.ifaces[id].name in devices && key !in devices[t.ifaces[id].name].peers
  {
    MirrorDevice(t, devices, id);
    hide Mirror;
  }

  // --- The changes the peer handlers push ---

  lemma AddPeerElsewhere(t: Tables, row: Peer)
    requires t.nextId !in t.peers
    ensures var b := AddPeer(t, row); SameElsewhere(t, b, row.iface) && PeersSameBut(t, b, row.iface, t.nextId)
  {
  }

  lemma PutPeerElsewhere(t: Tables, p: nat, row: Peer)
    requires p in t.peers && t.peers[p].iface == row.iface
    ensures var b := PutPeer(t, p, row); SameElsewhere(t, b, row.iface) && PeersSameBut(t, b, row.iface, p)
  {
  }

  lemma NewPeerFits(t: Tables, row: Peer)
    requires Integrity(t) && Live(t, row.iface) && !KeyTaken(t, row.publicKey) && !IpTaken(t, row.iface, row.ip)
    ensures SyncFits(t, AddPeer(t, StoredPeer(row)), row.iface, t.nextId, StoredPeer(row), false)
  {
    var b := AddPeer(t, StoredPeer(row));
    AddPeerKeeps(t, StoredPeer(row));
    UniqueParts(t);
    UniqueParts(b);
    AddPeerElsewhere(t, StoredPeer(row));
    hide Integrity, SameElsewhere, PeersSameBut, UniqueNames, UniqueKeys, UniqueIps, KeyTaken, IpTaken;
    assert b.peers[t.nextId] == StoredPeer(row);
    assert PeerUpdate(t, b, row.iface, t.nextId);
  }

  predicate SameIdentity(a: Peer, b: Peer) {
    a.iface == b.iface && a.publicKey == b.publicKey && a.presharedKey == b.presharedKey && a.ip == b.ip
  }

  /** Rewriting peer p's row, with its interface, key, preshared key and address unchanged. */
  lemma PutPeerFits(t: Tables, p: nat, row: Peer)
    requires Integrity(t) && p in t.peers && Integrity(PutPeer(t, p, row)) && SameIdentity(t.peers[p], row)
             && !row.trashed
    ensures SyncFits(t, PutPeer(t, p, row), row.iface, p, row, false)
  {
    ParentExists(t, p);
    UniqueParts(t);
    UniqueParts(PutPeer(t, p, row));
    PutPeerElsewhere(t, p, row);
    hide Integrity, SameElsewhere, PeersSameBut, UniqueNames, UniqueKeys, UniqueIps;
  }

  lemma TrashPeerFits(t: Tables, p: nat)
    requires Integrity(t) && p in t.peers
    ensures SyncFits(t, PutPeer(t, p, t.peers[p].(trashed := true)), t.peers[p].iface, p, t.peers[p], true)
  {
    hide Integrity;
    ParentExists(t, p);
  }

  lemma DropPeerFits(t: Tables, p: nat)
    requires Integrity(t) && p in t.peers
    ensures SyncFits(t, DropPeer(t, p), t.peers[p].iface, p, t.peers[p], true)
  {
    hide Integrity;
    ParentExists(t, p);
  }

  // --- Interfaces changed, reconciled or gone ---

  /** The mirror after a reconciled change to interface id. */
  lemma MirrorAfterReconcile(a: Tables, b: Tables, before: map<string, Device>, after: map<string, Device>, id: nat,
                             name: string)
    requires MirrorBut(a, before, id, name) && EgressOnly(a, b, id) && Live(a, id) && a.ifaces[id].name == name
    requires DevicesReconciled(b, before, after, id)
    ensures Mirror(b, after)
  {
    assert b.ifaces - {id} == a.ifaces - {id};
    MirrorButMoves(a, b, before, id, name);
    ReconciledMirror(b, before, after, id, name);
  }

  /** A change to interface id's own row or peers, for the devices of the others. */
  lemma ChangedElsewhere(t: Tables, b: Tables, devices: map<string, Device>, id: nat)
    requires Integrity(t) && Mirror(t, devices) && SameElsewhere(t, b, id) && id in t.ifaces
    ensures MirrorBut(b, devices, id, t.ifaces[id].name)
  {
    MirrorForget(t, b, devices, id, t.ifaces[id].name);
  }

  /** Taking down the device of an interface that is now trashed or gone. */
  lemma DeviceGone(t: Tables, b: Tables, devices: map<string, Device>, id: nat)
    requires Integrity(t) && Mirror(t, devices) && SameElsewhere(t, b, id) && id in t.ifaces
    requires id in b.ifaces ==> b.ifaces[id].trashed
    ensures Mirror(b, devices - {t.ifaces[id].name})
  {
    MirrorForget(t, b, devices, id, t.ifaces[id].name);
    MirrorWithoutDevice(b, devices, id, t.ifaces[id].name);
  }

  /** The writes of the interface handlers stay within interface id. */
  lemma InterfaceWrites(t: Tables, id: nat, row: Interface)
    ensures SameElsewhere(t, PutInterface(t, id, row), id)
    ensures SameElsewhere(t, PutInterface(MarkPeersOf(t, id, true), id, row), id)
    ensures SameElsewhere(t, MarkPeersOf(PutInterface(t, id, row), id, false), id)
    ensures SameElsewhere(t, DropInterface(DropPeersOf(t, id), id), id)
    ensures PutInterface(t, id, row).ifaces - {id} == t.ifaces - {id}
    ensures DropInterface(t, id).ifaces - {id} == t.ifaces - {id}
  {
    assert t.ifaces[id := row] - {id} == t.ifaces - {id};
    assert (t.ifaces - {id}) - {id} == t.ifaces - {id};
  }

  lemma NoDeviceYet(t: Tables, devices: map<string, Device>, name: string)
    requires Mirror(t, devices) && !NameTaken(t, name)
    ensures name !in devices
  {
  }

  /** Reconciling an interface that was mirrored keeps it mirrored. */
  lemma Resynced(a: Tables, b: Tables, before: map<string, Device>, after: map<string, Device>, id: nat)
    requires Integrity(a) && Mirror(a, before) && Live(a, id) && EgressOnly(a, b, id)
    requires id in b.ifaces && DevicesReconciled(b, before, after, id)
    ensures Mirror(b, after)
  {
    ChangedElsewhere(a, a, before, id);
    MirrorAfterReconcile(a, b, before, after, id, a.ifaces[id].name);
  }
}
