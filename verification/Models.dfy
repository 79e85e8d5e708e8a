/** The stored rows: interfaces, peers and port forwards, with the tables that hold them.
    A soft-deleted row stays in its table with its trashed flag set. */
module Models {
  import opened Text
  import opened Ipv4

  type Key = string

  datatype Cidr = Cidr(ip: Address, prefix: Prefix)

  /** subnetFor: the network an interface address lies in. */
  function SubnetOf(c: Cidr): Cidr {
    Cidr(Masked(c.ip, c.prefix), c.prefix)
  }

  /** CIDR notation, section 3.1 of RFC 4632. */
  function CidrText(c: Cidr): string {
    Dotted(c.ip) + "/" + Decimal(c.prefix)
  }

  datatype Proto = Tcp | Udp

  datatype Interface = Interface(
    name: string,
    privateKey: Key,
    listenPort: int,
    address: Cidr,
    mtu: int,
    enabled: bool,
    masquerade: bool,
    egress: string,
    trashed: bool)

  /** A peer's AllowedIPs column is always its address followed by "/32". */
  datatype Peer = Peer(
    iface: nat,
    name: string,
    publicKey: Key,
    presharedKey: Key,
    ip: Address,
    keepalive: int,
    enabled: bool,
    trashed: bool)

  datatype PortForward = PortForward(
    iface: nat,
    peer: nat,
    proto: Proto,
    publicPort: int,
    targetPort: int,
    targetIp: Address,
    egress: string,
    enabled: bool)

  datatype Tables = Tables(
    ifaces: map<nat, Interface>,
    peers: map<nat, Peer>,
    forwards: map<nat, PortForward>,
    nextId: nat)
}
