/** The kernel's WireGuard devices and the two ways of configuring one: the full peer set
    that replaces everything, and a single peer added, updated or removed. */
module Kernel {
  import opened Text
  import opened Ipv4
  import opened Models

  /** One peer on a device. The session stands for everything a handshake leaves behind;
      0 is a peer that has not shaken hands. */
  datatype PeerEntry = PeerEntry(allowed: set<Address>, presharedKey: Key, keepalive: int, session: nat)

  datatype Device = Device(
    privateKey: Key,
    listenPort: int,
    mtu: int,
    addresses: set<Cidr>,
    peers: map<Key, PeerEntry>)

  /** A wgtypes.PeerConfig: None leaves what the device has. */
  datatype PeerConfig = PeerConfig(publicKey: Key, allowed: Address, presharedKey: Option<Key>, keepalive: Option<int>)

  /** buildPeerConfig: an empty preshared key and a keepalive of 0 are left out. */
  function BuildPeerConfig(p: Peer): PeerConfig {
    PeerConfig(
      p.publicKey,
      p.ip,
      if p.presharedKey != "" then Some(p.presharedKey) else None,
      if p.keepalive > 0 then Some(p.keepalive) else None)
  }

  const FRESH_ENTRY := PeerEntry({}, "", 0, 0)

  /** The kernel hands an allowed address to one peer, taking it from any other. */
  function Upsert(peers: map<Key, PeerEntry>, c: PeerConfig): map<Key, PeerEntry> {
    var stripped := map k | k in peers :: peers[k].(allowed := peers[k].allowed - {c.allowed});
    var entry := if c.publicKey in peers then peers[c.publicKey] else FRESH_ENTRY;
    stripped[c.publicKey := PeerEntry(
      {c.allowed},
      if c.presharedKey.Some? then c.presharedKey.value else entry.presharedKey,
      if c.keepalive.Some? then c.keepalive.value else entry.keepalive,
      entry.session)]
  }

  function UpsertAll(peers: map<Key, PeerEntry>, cs: seq<PeerConfig>): map<Key, PeerEntry> {
    if cs == [] then peers else Upsert(UpsertAll(peers, cs[..|cs| - 1]), cs[|cs| - 1])
  }

  /** What a full sync makes of an enabled peer, whatever was there before. */
  function FullEntry(p: Peer): PeerEntry {
    PeerEntry({p.ip}, p.presharedKey, if p.keepalive > 0 then p.keepalive else 0, 0)
  }

  /** A device entry serves peer p. The keepalive is pinned only when p asks for one. */
  predicate Serves(e: PeerEntry, p: Peer) {
    e.allowed == {p.ip} && e.presharedKey == p.presharedKey && (p.keepalive > 0 ==> e.keepalive == p.keepalive)
  }

  /** Different peer rows have different keys and different addresses. */
  predicate Separate(ps: seq<Peer>) {
    forall p, q :: p in ps && q in ps && (p.publicKey == q.publicKey || p.ip == q.ip) ==> p == q
  }

  function Configs(ps: seq<Peer>): seq<PeerConfig> {
    if ps == [] then [] else Configs(ps[..|ps| - 1]) + [BuildPeerConfig(ps[|ps| - 1])]
  }

  /** The device holds the full entry of every listed peer and nothing else. */
  predicate ExactlyFull(m: map<Key, PeerEntry>, ps: seq<Peer>) {
    && (forall p :: p in ps ==> p.publicKey in m && m[p.publicKey] == FullEntry(p))
    && (forall k :: k in m ==> exists p :: p in ps && p.publicKey == k)
  }

  lemma UpsertStep(m: map<Key, PeerEntry>, ps: seq<Peer>, p: Peer)
    requires ExactlyFull(m, ps) && Separate(ps + [p])
    ensures ExactlyFull(Upsert(m, BuildPeerConfig(p)), ps + [p])
  {
    var all, after := ps + [p], Upsert(m, BuildPeerConfig(p));
    assert p in all;
    forall q | q in all
      ensures q.publicKey in after && after[q.publicKey] == FullEntry(q)
    {
      if q.publicKey != p.publicKey {
        assert q in ps && q.ip != p.ip;
        assert {q.ip} - {p.ip} == {q.ip};
      } else {
        assert q == p;
        if p.publicKey in m {
          var o :| o in ps && o.publicKey == p.publicKey;
          assert o in all;
        }
      }
    }
    forall k | k in after
      ensures exists q :: q in all && q.publicKey == k
    {
      if k in m {
        var q :| q in ps && q.publicKey == k;
        assert q in all;
      }
    }
  }

  /** A full sync of separate peers leaves exactly their full entries on the device. */
  lemma {:induction false} FullSyncExact(ps: seq<Peer>)
    requires Separate(ps)
    ensures ExactlyFull(UpsertAll(map[], Configs(ps)), ps)
  {
    if ps != [] {
      var n := |ps| - 1;
      assert ps == ps[..n] + [ps[n]];
      FullSyncExact(ps[..n]);
      UpsertStep(UpsertAll(map[], Configs(ps[..n])), ps[..n], ps[n]);
      assert Configs(ps)[..n] == Configs(ps[..n]) by { ConfigsLength(ps[..n]); }
    }
  }

  lemma {:induction false} ConfigsLength(ps: seq<Peer>)
    ensures |Configs(ps)| == |ps|
  {
    if ps != [] {
      ConfigsLength(ps[..|ps| - 1]);
    }
  }

  /** A single update serves its peer exactly when the entry already carried no other
      preshared key and, if the peer asks for no keepalive, none is left over. */
  lemma UpsertExactIff(peers: map<Key, PeerEntry>, p: Peer)
    ensures var e := Upsert(peers, BuildPeerConfig(p))[p.publicKey];
            var was := if p.publicKey in peers then peers[p.publicKey] else FRESH_ENTRY;
            (e.allowed == {p.ip} && e.session == was.session)
            && (e.presharedKey == p.presharedKey <==> p.presharedKey != "" || was.presharedKey == "")
            && (e.keepalive == p.keepalive <==> p.keepalive > 0 || was.keepalive == p.keepalive)
  {
  }

  /** Lowering a keepalive of 25 to 0 by a single update leaves 25 on the device. */
  lemma KeepaliveSurvives(p: Peer, e: PeerEntry)
    requires p.keepalive == 0 && e.keepalive == 25
    ensures Upsert(map[p.publicKey := e], BuildPeerConfig(p))[p.publicKey].keepalive == 25
  {
  }

  /** A single update leaves every other entry untouched, session included, as long as no
      other entry holds the peer's address. */
  lemma UpsertFrame(peers: map<Key, PeerEntry>, p: Peer, k: Key)
    requires k in peers && k != p.publicKey && p.ip !in peers[k].allowed
    ensures Upsert(peers, BuildPeerConfig(p))[k] == peers[k]
  {
    assert peers[k].allowed - {p.ip} == peers[k].allowed;
  }

  /** The peer's address then leads to its key alone. */
  lemma UpsertRoutes(peers: map<Key, PeerEntry>, p: Peer)
    ensures var after := Upsert(peers, BuildPeerConfig(p));
            p.publicKey in after
            && forall k :: k in after ==> (p.ip in after[k].allowed <==> k == p.publicKey)
  {
  }

  class Kernel {
    var devices: map<string, Device>
    var failures: nat

    constructor ()
      ensures devices == map[] && failures == 0
    {
      devices, failures := map[], 0;
    }

    method Attempt() returns (ok: bool)
      modifies this`failures
      ensures failures == if ok then old(failures) else old(failures) + 1
    {
      ok := *;
      if !ok {
        failures := failures + 1;
      }
    }

    /** A reboot forgets every device. */
    method Reset()
      modifies this`devices
      ensures devices == map[]
    {
      devices := map[];
    }

    /** A handshake gives an existing entry a session. */
    method Handshake(name: string, key: Key, session: nat)
      modifies this`devices
      ensures devices == ShakenHands(old(devices), name, key, session)
    {
      devices := ShakenHands(devices, name, key, session);
    }

    /** Creates the link if missing and adds the address; an existing link keeps its MTU
        and its other addresses. */
    method EnsureLink(name: string, address: Cidr, mtu: int) returns (ok: bool)
      modifies this
      ensures ok ==> devices == Linked(old(devices), name, address, mtu) && failures == old(failures)
      ensures !ok ==> devices == old(devices) && failures > old(failures)
    {
      ok := Attempt();
      if ok {
        devices := Linked(devices, name, address, mtu);
      }
    }

    method RemoveLink(name: string) returns (ok: bool)
      modifies this
      ensures ok ==> devices == old(devices) - {name} && failures == old(failures)
      ensures !ok ==> devices == old(devices) && failures > old(failures)
    {
      if name !in devices {
        assert devices - {name} == devices;
        return true;
      }
      ok := Attempt();
      if ok {
        devices := devices - {name};
      }
    }

    /** ConfigureDevice with ReplacePeers: the device ends up with these peers only. */
    method ConfigureDevice(iface: Interface, ps: seq<Peer>) returns (ok: bool)
      modifies this
      ensures ok ==> iface.name in old(devices) && failures == old(failures)
      ensures ok ==> devices == old(devices)[iface.name := Replaced(old(devices)[iface.name], iface, EnabledOf(ps))]
      ensures !ok ==> devices == old(devices) && failures > old(failures)
    {
      var cs := FullDeviceConfig(ps);
      ok := Attempt();
      if ok && iface.name !in devices {
        ok := false;
        failures := failures + 1;
      }
      if ok {
        var d := devices[iface.name];
        devices := devices[iface.name := d.(privateKey := iface.privateKey, listenPort := iface.listenPort,
                                            peers := UpsertAll(map[], cs))];
      }
    }

    method ConfigurePeer(name: string, p: Peer) returns (ok: bool)
      modifies this
      ensures ok ==> name in old(devices) && failures == old(failures)
      ensures ok ==>
        var d := old(devices)[name];
        devices == old(devices)[name := d.(peers := Upsert(d.peers, BuildPeerConfig(p)))]
      ensures !ok ==> devices == old(devices) && failures > old(failures)
    {
      ok := Attempt();
      if ok && name !in devices {
        ok := false;
        failures := failures + 1;
      }
      if ok {
        devices := devices[name := devices[name].(peers := Upsert(devices[name].peers, BuildPeerConfig(p)))];
      }
    }

    method RemovePeer(name: string, key: Key) returns (ok: bool)
      modifies this
      ensures ok ==> name in old(devices) && failures == old(failures)
      ensures ok ==> devices == old(devices)[name := old(devices)[name].(peers := old(devices)[name].peers - {key})]
      ensures !ok ==> devices == old(devices) && failures > old(failures)
    {
      ok := Attempt();
      if ok && name !in devices {
        ok := false;
        failures := failures + 1;
      }
      if ok {
        devices := devices[name := devices[name].(peers := devices[name].peers - {key})];
      }
    }
  }

  function ShakenHands(devices: map<string, Device>, name: string, key: Key, session: nat): map<string, Device> {
    if name in devices && key in devices[name].peers then
      var d := devices[name];
      devices[name := d.(peers := d.peers[key := d.peers[key].(session := session)])]
    else devices
  }

  function Linked(devices: map<string, Device>, name: string, address: Cidr, mtu: int): map<string, Device> {
    var d := if name in devices then devices[name] else Device("", 0, mtu, {}, map[]);
    devices[name := d.(addresses := d.addresses + {address})]
  }

  function Replaced(d: Device, iface: Interface, ps: seq<Peer>): Device {
    d.(privateKey := iface.privateKey, listenPort := iface.listenPort, peers := UpsertAll(map[], Configs(ps)))
  }

  function EnabledOf(ps: seq<Peer>): seq<Peer> {
    if ps == [] then []
    else
      var init, last := EnabledOf(ps[..|ps| - 1]), ps[|ps| - 1];
      if last.enabled then init + [last] else init
  }

  lemma {:induction false} EnabledOfIff(ps: seq<Peer>)
    ensures forall p :: p in EnabledOf(ps) <==> p in ps && p.enabled
  {
    if ps != [] {
      var n := |ps| - 1;
      assert ps == ps[..n] + [ps[n]];
      EnabledOfIff(ps[..n]);
    }
  }

  /** FullDeviceConfig's loop: one config per enabled peer, in row order. */
  method FullDeviceConfig(ps: seq<Peer>) returns (cs: seq<PeerConfig>)
    ensures cs == Configs(EnabledOf(ps))
  {
    cs := [];
    for i := 0 to |ps|
      invariant cs == Configs(EnabledOf(ps[..i]))
    {
      assert ps[..i + 1][..i] == ps[..i];
      if !ps[i].enabled {
        continue;
      }
      cs := cs + [BuildPeerConfig(ps[i])];
    }
    assert ps[..|ps|] == ps;
  }
}
