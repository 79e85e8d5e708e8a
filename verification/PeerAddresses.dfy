/** Address allocation against the stored peers: the texts of the live peers' addresses are
    what the search skips, so what it finds is the least address no live peer has. */
module PeerAddresses {
  import opened Text
  import opened Ipv4
  import opened Models
  import opened Database
  import opened KernelMirror
  import opened Allocation

  /** An address the interface could hand to a new peer as far as its live peers go. */
  ghost predicate Assignable(t: Tables, iface: nat, a: Address)
    requires iface in t.ifaces
  {
    var address := t.ifaces[iface].address;
    && Candidate(address.ip, address.prefix, a) && a != address.ip
    && forall p :: p in t.peers && t.peers[p].iface == iface && !t.peers[p].trashed ==> t.peers[p].ip != a
  }

  ghost predicate LeastAssignable(t: Tables, iface: nat, a: Address)
    requires iface in t.ifaces
  {
    Assignable(t, iface, a) && forall b: Address :: Assignable(t, iface, b) ==> Value(a) <= Value(b)
  }

  lemma DottedTrimmed(a: Address)
    ensures Trim(Dotted(a)) == Dotted(a)
  {
    DottedText(a);
    var s := Dotted(a);
    var first, last := Decimal(a[0]), Decimal(a[3]);
    assert s[0] == first[0] && IsDigit(first[0]);
    assert s[|s| - 1] == last[|last| - 1] && IsDigit(last[|last| - 1]);
    TrimFixes(s);
  }

  /** The texts collected from the live peers' rows. */
  ghost predicate TextsOf(rows: seq<Peer>, taken: seq<string>) {
    |taken| == |rows| && forall i :: 0 <= i < |rows| ==> taken[i] == Dotted(rows[i].ip)
  }

  lemma FreeIsAssignable(t: Tables, iface: nat, rows: seq<Peer>, taken: seq<string>, a: Address)
    requires iface in t.ifaces && RowsOf(t, iface, rows) && TextsOf(rows, taken)
    ensures var address := t.ifaces[iface].address;
            Free(address.ip, address.prefix, taken, a) <==> Assignable(t, iface, a)
  {
    var address := t.ifaces[iface].address;
    UsedTextsIff(Dotted(address.ip), taken, Dotted(a));
    if Dotted(a) == Dotted(address.ip) {
      DottedInjective(a, address.ip);
    }
    forall i | 0 <= i < |taken|
      ensures Trim(taken[i]) == Dotted(a) <==> rows[i].ip == a
    {
      DottedTrimmed(rows[i].ip);
      if Dotted(rows[i].ip) == Dotted(a) {
        DottedInjective(rows[i].ip, a);
      }
    }
    forall i | 0 <= i < |rows|
      ensures rows[i] in rows
    {
    }
  }

  predicate TrashedIp(t: Tables, iface: nat, a: Address) {
    exists p :: p in t.peers && t.peers[p].iface == iface && t.peers[p].ip == a && t.peers[p].trashed
  }

  /** The least assignable address passes the check, is unique, and can only be taken by a
      trashed peer. */
  lemma LeastIsTheOne(t: Tables, iface: nat, a: Address)
    requires iface in t.ifaces && LeastAssignable(t, iface, a)
    ensures ValidateIPInCIDR(a, t.ifaces[iface].address.ip, t.ifaces[iface].address.prefix) == Fits
    ensures IpTaken(t, iface, a) <==> TrashedIp(t, iface, a)
    ensures forall b: Address :: LeastAssignable(t, iface, b) ==> b == a
  {
    var address := t.ifaces[iface].address;
    StartOfBlock(address.ip, address.prefix);
    forall b: Address | LeastAssignable(t, iface, b)
      ensures b == a
    {
      ValueInjective(a, b);
    }
  }

  /** An interface 10.8.0.1/24 whose one peer, at 10.8.0.2, is in the trash. */
  function OneTrashedPeer(): Tables {
    Tables(map[1 := Interface("wg0", "", 51820, Cidr([10, 8, 0, 1], 24), 1420, true, false, "", false)],
           map[2 := Peer(1, "laptop", "old", "", [10, 8, 0, 2], 25, true, true)], map[], 3)
  }

  lemma OneTrashedPeerIsSound()
    ensures Integrity(OneTrashedPeer()) && !KeyTaken(OneTrashedPeer(), "new")
  {
    assert OneTrashedPeer().peers[2].publicKey[0] != "new"[0];
  }

  /** 10.8.0.2 comes first after the network address and the interface's own. */
  lemma SecondComesNext(server: Address, a: Address)
    requires server == [10, 8, 0, 1] && a == [10, 8, 0, 2]
    ensures Candidate(server, 24, a) && a != server
    ensures forall b: Address :: Candidate(server, 24, b) && b != server ==> Value(a) <= Value(b)
  {
    SmallPowers();
    ValueOfFour(server);
    ValueOfFour(a);
    hide Value, Contains, Pow2;
    assert Network(Value(server), 24) == 0xa08_0000 && Network(Value(a), 24) == 0xa08_0000;
    ContainsIff(server, 24, a);
    forall b: Address | Candidate(server, 24, b) && b != server
      ensures Value(a) <= Value(b)
    {
      if Value(b) == Value(server) {
        ValueInjective(b, server);
      }
    }
  }

  /** The next address is the trashed peer's, which the unique index still holds. */
  lemma NextIsTrashed()
    ensures LeastAssignable(OneTrashedPeer(), 1, [10, 8, 0, 2]) && TrashedIp(OneTrashedPeer(), 1, [10, 8, 0, 2])
  {
    var t := OneTrashedPeer();
    var a: Address := [10, 8, 0, 2];
    SecondComesNext(t.ifaces[1].address.ip, a);
    hide Candidate, Value;
    assert 2 in t.peers && t.peers[2].ip == a;
    assert Assignable(t, 1, a);
  }

  // --- Why the search ends on a subnet of prefix 0 ---

  function AddressOf(v: nat): (a: Address)
    requires v < 0x1_0000_0000
    ensures Value(a) == v
  {
    var high, low := v / 0x1_0000, v % 0x1_0000;
    var a: Address := [high / 0x100, high % 0x100, low / 0x100, low % 0x100];
    ValueOfFour(a);
    a
  }

  lemma {:induction false} IdsBound(ids: set<nat>, n: nat)
    requires forall i :: i in ids ==> i < n
    ensures |ids| <= n
  {
    if n > 0 {
      IdsBound(ids - {n - 1}, n - 1);
    } else {
      assert ids == {};
    }
  }

  function PeerValues(t: Tables, ids: set<nat>): set<nat>
    requires ids <= t.peers.Keys
  {
    set p | p in ids :: Value(t.peers[p].ip)
  }

  lemma {:induction false} PeerValuesBound(t: Tables, ids: set<nat>)
    requires ids <= t.peers.Keys
    ensures |PeerValues(t, ids)| <= |ids|
    decreases |ids|
  {
    if ids != {} {
      var p :| p in ids;
      PeerValuesBound(t, ids - {p});
      assert PeerValues(t, ids) == PeerValues(t, ids - {p}) + {Value(t.peers[p].ip)};
    } else {
      assert PeerValues(t, ids) == {};
    }
  }

  /** A set that misses none of 1 to n has at least n elements. */
  lemma {:induction false} Missed(s: set<nat>, n: nat) returns (v: nat)
    requires |s| < n
    ensures 1 <= v <= n && v !in s
  {
    if n !in s {
      v := n;
    } else {
      v := Missed(s - {n}, n - 1);
    }
  }

  /** Below four thousand million peer ids, a subnet of prefix 0 always has an address left. */
  lemma RoomAtPrefixZero(t: Tables, iface: nat)
    requires Integrity(t) && iface in t.ifaces && t.ifaces[iface].address.prefix == 0
    requires t.nextId < 0xffff_fffe
    ensures exists a: Address :: Assignable(t, iface, a)
  {
    hide Candidate, Value;
    var server := t.ifaces[iface].address.ip;
    var ids := t.peers.Keys;
    IdsBound(ids, t.nextId);
    PeerValuesBound(t, ids);
    var v := Missed(PeerValues(t, ids) + {Value(server)}, 0xffff_ffff);
    var a := AddressOf(v);
    WholeRange(server, a);
    forall p | p in t.peers
      ensures t.peers[p].ip != a
    {
      assert Value(t.peers[p].ip) in PeerValues(t, ids);
    }
    assert Assignable(t, iface, a);
  }

  /** With prefix 0 every address but 0.0.0.0 is past the network address. */
  lemma WholeRange(server: Address, a: Address)
    requires Value(a) > 0
    ensures Candidate(server, 0, a)
  {
    SmallPowers();
    ValueOfFour(server);
    ModUnique(Value(server), 0x1_0000_0000, 0, Value(server));
    ValueOfFour(a);
    ModUnique(Value(a), 0x1_0000_0000, 0, Value(a));
    ContainsIff(server, 0, a);
  }
}
