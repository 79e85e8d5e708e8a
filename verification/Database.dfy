/** The database: single writes as functions on the tables, the integrity every one of them
    must keep, and the store as an object whose writes may fail and then change nothing. */
module Database {
  import opened Text
  import opened Ipv4
  import opened Models

  // --- Integrity ---

  /** Ids are below the sequence, references point at rows, and a forward names a peer of its
      own interface, and that peer's address, for as long as the peer exists. */
  predicate References(t: Tables) {
    && (forall i :: i in t.ifaces ==> i < t.nextId)
    && (forall p :: p in t.peers ==> p < t.nextId && t.peers[p].iface in t.ifaces)
    && (forall f :: f in t.forwards ==> f < t.nextId && t.forwards[f].iface < t.nextId && t.forwards[f].peer < t.nextId)
    && (forall f :: f in t.forwards && t.forwards[f].peer in t.peers
                    ==> t.peers[t.forwards[f].peer].iface == t.forwards[f].iface
                        && t.peers[t.forwards[f].peer].ip == t.forwards[f].targetIp)
  }

  predicate LivePeersUnderLiveInterfaces(t: Tables) {
    forall p ::
      p in t.peers && !t.peers[p].trashed && t.peers[p].iface in t.ifaces ==> !t.ifaces[t.peers[p].iface].trashed
  }

  /** The unique indexes. They do not look at the trashed flag. */
  predicate UniqueNames(t: Tables) {
    forall i, j :: i in t.ifaces && j in t.ifaces && t.ifaces[i].name == t.ifaces[j].name ==> i == j
  }

  predicate UniqueKeys(t: Tables) {
    forall p, q :: p in t.peers && q in t.peers && t.peers[p].publicKey == t.peers[q].publicKey ==> p == q
  }

  predicate UniqueIps(t: Tables) {
    forall p, q ::
      p in t.peers && q in t.peers && t.peers[p].iface == t.peers[q].iface && t.peers[p].ip == t.peers[q].ip
      ==> p == q
  }

  predicate SamePort(a: PortForward, b: PortForward) {
    a.proto == b.proto && a.publicPort == b.publicPort
  }

  predicate UniquePorts(t: Tables) {
    forall f, g :: f in t.forwards && g in t.forwards && SamePort(t.forwards[f], t.forwards[g]) ==> f == g
  }

  /** Interfaces have a name, stored egress names carry no surrounding spaces, and a forward
      always has an egress. */
  predicate FieldsStored(t: Tables) {
    && (forall i :: i in t.ifaces ==> t.ifaces[i].name != "" && Trimmed(t.ifaces[i].egress))
    && (forall f :: f in t.forwards ==> Trimmed(t.forwards[f].egress) && t.forwards[f].egress != "")
  }

  predicate Integrity(t: Tables) {
    && References(t) && LivePeersUnderLiveInterfaces(t) && FieldsStored(t)
    && UniqueNames(t) && UniqueKeys(t) && UniqueIps(t) && UniquePorts(t)
  }

  lemma ParentExists(t: Tables, p: nat)
    requires Integrity(t) && p in t.peers
    ensures t.peers[p].iface in t.ifaces
  {
  }

  lemma InterfaceBelow(t: Tables, i: nat)
    requires Integrity(t) && i in t.ifaces
    ensures i < t.nextId
  {
  }

  lemma Named(t: Tables, i: nat)
    requires Integrity(t) && i in t.ifaces
    ensures t.ifaces[i].name != ""
  {
  }

  lemma FreshId(t: Tables)
    requires Integrity(t)
    ensures t.nextId !in t.ifaces && t.nextId !in t.peers && t.nextId !in t.forwards
  {
  }

  // --- Single writes ---

  function AddInterface(t: Tables, row: Interface): Tables {
    t.(ifaces := t.ifaces[t.nextId := row], nextId := t.nextId + 1)
  }

  function PutInterface(t: Tables, id: nat, row: Interface): Tables {
    t.(ifaces := t.ifaces[id := row])
  }

  function DropInterface(t: Tables, id: nat): Tables {
    t.(ifaces := t.ifaces - {id})
  }

  function AddPeer(t: Tables, row: Peer): Tables {
    t.(peers := t.peers[t.nextId := row], nextId := t.nextId + 1)
  }

  function PutPeer(t: Tables, id: nat, row: Peer): Tables {
    t.(peers := t.peers[id := row])
  }

  function DropPeer(t: Tables, id: nat): Tables {
    t.(peers := t.peers - {id})
  }

  function MarkPeersOf(t: Tables, iface: nat, trashed: bool): Tables {
    t.(peers := map p | p in t.peers ::
         if t.peers[p].iface == iface then t.peers[p].(trashed := trashed) else t.peers[p])
  }

  function DropPeersOf(t: Tables, iface: nat): Tables {
    t.(peers := map p | p in t.peers && t.peers[p].iface != iface :: t.peers[p])
  }

  function AddForward(t: Tables, row: PortForward): Tables {
    t.(forwards := t.forwards[t.nextId := row], nextId := t.nextId + 1)
  }

  function PutForward(t: Tables, id: nat, row: PortForward): Tables {
    t.(forwards := t.forwards[id := row])
  }

  function DropForward(t: Tables, id: nat): Tables {
    t.(forwards := t.forwards - {id})
  }

  /** GORM leaves zero values with a column default out of the insert: a requested `false`
      for enabled and a requested 0 for the MTU are stored as the defaults. */
  function StoredInterface(row: Interface): Interface {
    row.(enabled := true, mtu := if row.mtu == 0 then 1420 else row.mtu, trashed := false)
  }

  function StoredPeer(row: Peer): Peer {
    row.(enabled := true, keepalive := if row.keepalive == 0 then 25 else row.keepalive, trashed := false)
  }

  // --- Which writes keep integrity ---

  predicate NoLivePeers(t: Tables, iface: nat) {
    forall p :: p in t.peers && t.peers[p].iface == iface ==> t.peers[p].trashed
  }

  predicate NoPeers(t: Tables, iface: nat) {
    forall p :: p in t.peers ==> t.peers[p].iface != iface
  }

  predicate Live(t: Tables, iface: nat) {
    iface in t.ifaces && !t.ifaces[iface].trashed
  }

  predicate NameTaken(t: Tables, name: string) {
    exists i :: i in t.ifaces && t.ifaces[i].name == name
  }

  predicate KeyTaken(t: Tables, key: Key) {
    exists p :: p in t.peers && t.peers[p].publicKey == key
  }

  predicate IpTaken(t: Tables, iface: nat, ip: Address) {
    exists p :: p in t.peers && t.peers[p].iface == iface && t.peers[p].ip == ip
  }

  predicate PortTaken(t: Tables, proto: Proto, port: int) {
    exists f :: f in t.forwards && t.forwards[f].proto == proto && t.forwards[f].publicPort == port
  }

  /** The unique indexes of a table depend on that table alone. */
  lemma UniqueByTable(a: Tables, b: Tables)
    ensures a.ifaces == b.ifaces ==> (UniqueNames(a) <==> UniqueNames(b))
    ensures a.peers == b.peers ==> (UniqueKeys(a) <==> UniqueKeys(b)) && (UniqueIps(a) <==> UniqueIps(b))
    ensures a.forwards == b.forwards ==> (UniquePorts(a) <==> UniquePorts(b))
  {
  }

  lemma AddInterfaceKeeps(t: Tables, row: Interface)
    requires Integrity(t) && !NameTaken(t, row.name) && Trimmed(row.egress) && row.name != ""
    ensures Integrity(AddInterface(t, row))
  {
    UniqueByTable(t, AddInterface(t, row));
    hide UniqueKeys, UniqueIps, UniquePorts;
  }

  /** Saving an interface row keeps integrity: its name and trashed flag never change. */
  lemma PutInterfaceKeeps(t: Tables, id: nat, row: Interface)
    requires Integrity(t) && id in t.ifaces && Trimmed(row.egress)
    requires row.name == t.ifaces[id].name && row.trashed == t.ifaces[id].trashed
    ensures Integrity(PutInterface(t, id, row))
  {
    UniqueByTable(t, PutInterface(t, id, row));
    hide UniqueKeys, UniqueIps, UniquePorts;
  }

  /** An interface may be trashed exactly when its peers have been. */
  lemma TrashInterfaceIff(t: Tables, id: nat)
    requires Integrity(t) && id in t.ifaces
    ensures Integrity(PutInterface(t, id, t.ifaces[id].(trashed := true))) <==> NoLivePeers(t, id)
  {
    UniqueByTable(t, PutInterface(t, id, t.ifaces[id].(trashed := true)));
    hide UniqueKeys, UniqueIps, UniquePorts;
    var t' := PutInterface(t, id, t.ifaces[id].(trashed := true));
    assert t'.ifaces[id].trashed;
    if LivePeersUnderLiveInterfaces(t') {
      forall p | p in t.peers && t.peers[p].iface == id
        ensures t.peers[p].trashed
      {
        assert t'.peers[p] == t.peers[p];
      }
    }
  }

  /** Restoring an interface never collides with anything. */
  lemma RestoreInterfaceKeeps(t: Tables, id: nat)
    requires Integrity(t) && id in t.ifaces
    ensures Integrity(PutInterface(t, id, t.ifaces[id].(trashed := false)))
  {
    UniqueByTable(t, PutInterface(t, id, t.ifaces[id].(trashed := false)));
    hide UniqueKeys, UniqueIps, UniquePorts;
  }

  /** An interface row may go exactly when no peer row refers to it. */
  lemma DropInterfaceIff(t: Tables, id: nat)
    requires Integrity(t) && id in t.ifaces
    ensures Integrity(DropInterface(t, id)) <==> NoPeers(t, id)
  {
    UniqueByTable(t, DropInterface(t, id));
    hide UniqueKeys, UniqueIps, UniquePorts;
    var t' := DropInterface(t, id);
    assert id !in t'.ifaces;
    if References(t') {
      forall p | p in t.peers
        ensures t.peers[p].iface != id
      {
        assert t'.peers[p].iface in t'.ifaces;
      }
    }
  }

  lemma AddPeerKeeps(t: Tables, row: Peer)
    requires Integrity(t) && Live(t, row.iface)
    requires !KeyTaken(t, row.publicKey) && !IpTaken(t, row.iface, row.ip)
    ensures Integrity(AddPeer(t, row))
  {
    UniqueByTable(t, AddPeer(t, row));
    hide UniqueNames, UniquePorts;
  }

  /** Each of these tests says whether the unique index would refuse the row. */
  lemma NameTakenIff(t: Tables, row: Interface)
    requires Integrity(t)
    ensures UniqueNames(AddInterface(t, row)) <==> !NameTaken(t, row.name)
  {
    FreshId(t);
    var b := AddInterface(t, row);
    if i :| i in t.ifaces && t.ifaces[i].name == row.name {
      assert b.ifaces[i].name == b.ifaces[t.nextId].name;
    }
  }

  lemma KeyTakenIff(t: Tables, row: Peer)
    requires Integrity(t)
    ensures UniqueKeys(AddPeer(t, row)) <==> !KeyTaken(t, row.publicKey)
  {
    FreshId(t);
    var b := AddPeer(t, row);
    if p :| p in t.peers && t.peers[p].publicKey == row.publicKey {
      assert b.peers[p].publicKey == b.peers[t.nextId].publicKey;
    }
  }

  lemma IpTakenIff(t: Tables, row: Peer)
    requires Integrity(t)
    ensures UniqueIps(AddPeer(t, row)) <==> !IpTaken(t, row.iface, row.ip)
  {
    FreshId(t);
    var b := AddPeer(t, row);
    if p :| p in t.peers && t.peers[p].iface == row.iface && t.peers[p].ip == row.ip {
      assert b.peers[p].ip == b.peers[t.nextId].ip;
    }
  }

  lemma PortTakenIff(t: Tables, row: PortForward)
    requires Integrity(t)
    ensures UniquePorts(AddForward(t, row)) <==> !PortTaken(t, row.proto, row.publicPort)
  {
    FreshId(t);
    var b := AddForward(t, row);
    if f :| f in t.forwards && t.forwards[f].proto == row.proto && t.forwards[f].publicPort == row.publicPort {
      assert SamePort(b.forwards[f], b.forwards[t.nextId]);
    }
  }

  /** From a to b peers may have gone or changed, but not moved: interface, key and address stay. */
  predicate PeersStay(a: Tables, b: Tables) {
    && b == a.(peers := b.peers)
    && forall p :: p in b.peers ==> p in a.peers && b.peers[p].iface == a.peers[p].iface
                                    && b.peers[p].publicKey == a.peers[p].publicKey && b.peers[p].ip == a.peers[p].ip
  }

  lemma PeersStayUnique(a: Tables, b: Tables)
    requires PeersStay(a, b) && UniqueKeys(a) && UniqueIps(a)
    ensures UniqueKeys(b) && UniqueIps(b)
  {
  }

  /** Then only the rule about live peers under live interfaces is at stake. */
  lemma PeersStayIff(a: Tables, b: Tables)
    requires Integrity(a) && PeersStay(a, b)
    ensures Integrity(b) <==> LivePeersUnderLiveInterfaces(b)
  {
    PeersStayUnique(a, b);
    hide UniqueKeys, UniqueIps, LivePeersUnderLiveInterfaces;
  }

  lemma LiveUnderLive(t: Tables, p: nat)
    requires Integrity(t) && p in t.peers && !t.peers[p].trashed
    ensures Live(t, t.peers[p].iface)
  {
  }

  /** No peer comes back to life. */
  lemma StayersKeep(a: Tables, b: Tables)
    requires Integrity(a) && PeersStay(a, b) && forall p :: p in b.peers && !b.peers[p].trashed ==> !a.peers[p].trashed
    ensures Integrity(b)
  {
    PeersStayIff(a, b);
    forall p | p in b.peers && !b.peers[p].trashed
      ensures Live(a, a.peers[p].iface)
    {
      LiveUnderLive(a, p);
    }
    hide Integrity;
  }

  /** Saving a peer row keeps integrity: interface, key, address and trashed flag stay. */
  lemma PutPeerKeeps(t: Tables, id: nat, row: Peer)
    requires Integrity(t) && id in t.peers
    requires var was := t.peers[id];
             row.iface == was.iface && row.publicKey == was.publicKey && row.ip == was.ip && row.trashed == was.trashed
    ensures Integrity(PutPeer(t, id, row))
  {
    hide Integrity;
    StayersKeep(t, PutPeer(t, id, row));
  }

  lemma TrashPeerKeeps(t: Tables, id: nat)
    requires Integrity(t) && id in t.peers
    ensures Integrity(PutPeer(t, id, t.peers[id].(trashed := true)))
  {
    hide Integrity;
    StayersKeep(t, PutPeer(t, id, t.peers[id].(trashed := true)));
  }

  /** A peer may be restored exactly when its interface is live; nothing else can collide. */
  lemma RestorePeerIff(t: Tables, id: nat)
    requires Integrity(t) && id in t.peers
    ensures Integrity(PutPeer(t, id, t.peers[id].(trashed := false))) <==> Live(t, t.peers[id].iface)
  {
    var b := PutPeer(t, id, t.peers[id].(trashed := false));
    PeersStayIff(t, b);
    ParentExists(t, id);
    forall p | p in t.peers && !t.peers[p].trashed
      ensures Live(t, t.peers[p].iface)
    {
      LiveUnderLive(t, p);
    }
    hide Integrity;
    assert !b.peers[id].trashed && b.peers[id].iface == t.peers[id].iface;
  }

  lemma DropPeerKeeps(t: Tables, id: nat)
    requires Integrity(t)
    ensures Integrity(DropPeer(t, id))
  {
    hide Integrity;
    StayersKeep(t, DropPeer(t, id));
  }

  lemma KeyGone(t: Tables, id: nat)
    requires Integrity(t) && id in t.peers
    ensures forall p :: p in t.peers && t.peers[p].publicKey == t.peers[id].publicKey ==> p == id
  {
  }

  lemma TrashPeersKeeps(t: Tables, iface: nat)
    requires Integrity(t)
    ensures Integrity(MarkPeersOf(t, iface, true)) && NoLivePeers(MarkPeersOf(t, iface, true), iface)
  {
    hide Integrity;
    StayersKeep(t, MarkPeersOf(t, iface, true));
  }

  lemma RestorePeersKeeps(t: Tables, iface: nat)
    requires Integrity(t) && Live(t, iface)
    ensures Integrity(MarkPeersOf(t, iface, false))
  {
    var b := MarkPeersOf(t, iface, false);
    PeersStayIff(t, b);
    forall p | p in t.peers && !t.peers[p].trashed
      ensures Live(t, t.peers[p].iface)
    {
      LiveUnderLive(t, p);
    }
    hide Integrity;
  }

  lemma DropPeersKeeps(t: Tables, iface: nat)
    requires Integrity(t)
    ensures Integrity(DropPeersOf(t, iface)) && NoPeers(DropPeersOf(t, iface), iface)
  {
    hide Integrity;
    StayersKeep(t, DropPeersOf(t, iface));
  }

  lemma AddForwardKeeps(t: Tables, row: PortForward)
    requires Integrity(t) && !PortTaken(t, row.proto, row.publicPort)
    requires Trimmed(row.egress) && row.egress != ""
    requires row.iface < t.nextId && row.peer in t.peers && t.peers[row.peer].iface == row.iface
    requires t.peers[row.peer].ip == row.targetIp
    ensures Integrity(AddForward(t, row))
  {
    UniqueByTable(t, AddForward(t, row));
    hide UniqueNames, UniqueKeys, UniqueIps;
  }

  /** Saving a forward keeps integrity: only target port and enabled flag change. */
  lemma PutForwardKeeps(t: Tables, id: nat, row: PortForward)
    requires Integrity(t) && id in t.forwards
    requires row == t.forwards[id].(targetPort := row.targetPort, enabled := row.enabled)
    ensures Integrity(PutForward(t, id, row))
  {
  }

  lemma DropForwardKeeps(t: Tables, id: nat)
    requires Integrity(t)
    ensures Integrity(DropForward(t, id))
  {
  }

  // --- The store ---

  datatype Outcome = Done | Duplicate | Failed

  class Database {
    var t: Tables
    var failures: nat

    ghost predicate Valid()
      reads this
    {
      Integrity(t)
    }

    constructor ()
      ensures Valid() && t == Tables(map[], map[], map[], 1) && failures == 0
    {
      t, failures := Tables(map[], map[], map[], 1), 0;
    }

    /** One write: it happens, or it fails and changes nothing. */
    method Write(next: Tables) returns (ok: bool)
      requires Valid() && Integrity(next)
      modifies this
      ensures Valid()
      ensures t == if ok then next else old(t)
      ensures failures == if ok then old(failures) else old(failures) + 1
    {
      ok := *;
      if ok {
        t := next;
      } else {
        failures := failures + 1;
      }
    }

    method InsertInterface(row: Interface) returns (out: Outcome, id: nat)
      requires Valid() && Trimmed(row.egress) && row.name != ""
      modifies this
      ensures Valid()
      ensures out.Done? ==> id == old(t.nextId) && t == AddInterface(old(t), StoredInterface(row))
      ensures out.Duplicate? <==> NameTaken(old(t), row.name)
      ensures !out.Done? ==> t == old(t)
      ensures if out.Failed? then failures > old(failures) else failures == old(failures)
    {
      id := t.nextId;
      if NameTaken(t, row.name) {
        return Duplicate, id;
      }
      AddInterfaceKeeps(t, StoredInterface(row));
      var ok := Write(AddInterface(t, StoredInterface(row)));
      out := if ok then Done else Failed;
    }

    method InsertPeer(row: Peer) returns (out: Outcome, id: nat)
      requires Valid() && Live(t, row.iface)
      modifies this
      ensures Valid()
      ensures out.Done? ==> id == old(t.nextId) && t == AddPeer(old(t), StoredPeer(row))
      ensures out.Duplicate? <==> KeyTaken(old(t), row.publicKey) || IpTaken(old(t), row.iface, row.ip)
      ensures !out.Done? ==> t == old(t)
      ensures if out.Failed? then failures > old(failures) else failures == old(failures)
    {
      id := t.nextId;
      if KeyTaken(t, row.publicKey) || IpTaken(t, row.iface, row.ip) {
        return Duplicate, id;
      }
      AddPeerKeeps(t, StoredPeer(row));
      var ok := Write(AddPeer(t, StoredPeer(row)));
      out := if ok then Done else Failed;
    }

    method InsertForward(row: PortForward) returns (out: Outcome, id: nat)
      requires Valid() && Trimmed(row.egress) && row.egress != ""
      requires row.iface < t.nextId && row.peer in t.peers && t.peers[row.peer].iface == row.iface
    requires t.peers[row.peer].ip == row.targetIp
      modifies this
      ensures Valid()
      ensures out.Done? ==> id == old(t.nextId) && t == AddForward(old(t), row)
      ensures out.Duplicate? <==> PortTaken(old(t), row.proto, row.publicPort)
      ensures !out.Done? ==> t == old(t)
      ensures if out.Failed? then failures > old(failures) else failures == old(failures)
    {
      id := t.nextId;
      if PortTaken(t, row.proto, row.publicPort) {
        return Duplicate, id;
      }
      AddForwardKeeps(t, row);
      var ok := Write(AddForward(t, row));
      out := if ok then Done else Failed;
    }
  }
}
