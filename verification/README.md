# VPN manager: a verified model

This project models the parts of the VPN manager where a mistake is expensive: the WireGuard
control plane (database, kernel devices and iptables chains, changed step by step by the request
handlers), peer address allocation, role-based administration, and the texts that are printed in
one place and read in another. Dafny proves the properties below for every input, every state that
satisfies the stated invariants, and every run.

## What is modelled

**The control plane.** Three stores are objects with the fields the program changes:
`Database.Database` (interfaces, peers and port forwards with their enabled and trashed flags),
`Kernel.Kernel` (devices with their peers, keepalives and handshake sessions) and
`IpTables.IpTables` (one ordered rule sequence per chain, the forwarding switch and the default
route). `ControlPlane.ControlPlane` holds the handlers as methods with the program's own order of
writes. Every database write, every rule insertion and every kernel call may fail; a failed call is
counted, and the handler then stops, warns or goes on as the program does.

- *Whatever fails*, every single write keeps the database's integrity (`Database.Database.Write`
  demands it), and every tagged rule in the chains is one of the four rules of its current forward
  row, once (`TagSafe`). A forward, peer or interface that is deleted or purged leaves no tagged rule.
- *While no call fails*, each live enabled interface's device holds exactly its live enabled peers
  and there is no other device (`Mirror`), every enabled forward of a live peer on such an interface
  has all four of its rules (`ForwardsServed`), and the untagged rules are those other programs had
  plus, once each, the ones the interface rows demand (`NatExact`).
- `Runs.Serve` lifts all of this to every moment of every run of requests, restarts, host reboots,
  handshakes and route changes. Whatever failed before, an error-free reboot makes everything right
  again until the next failure (`Runs.RebootRecovers`), and a start after it leaves everything as it is.
- `Packets` says what the rules do to a packet: where forwards are served, one for a forward's port goes
  to the address of its peer, is let into the tunnel and masqueraded there, its answers come back, and the
  device routes that address to that peer alone (`Runs.PacketsArrive`); where NAT is right, an interface's
  network leaves by its egress masqueraded (`Runs.NetworkIsCarried`). The tagged and untagged rules do
  nothing beyond that, SSH and the panel stay out of them, and forwarding is on wherever there are any.
- The outcome of every handler on the host is told by its request: which key the device then has and with
  what, where a forwarded packet lands, what an interface carries.
- The incremental `SyncPeer` lands where the full `Reconcile` would and touches one entry only.

**Allocation and CIDR arithmetic.** `Ipv4` shows that Go's byte masks, the frontend's 32-bit shifts,
the OpenVPN address/netmask pair and CIDR containment are the same arithmetic; `Allocation` proves
the in-place increment and the search for the least free address, with its termination.

**Administration.** `Rbac` states what each request decides and writes; `Administration.Accounts`
implements the handlers with their loops (de-duplication, count test, guard) against it. The guard
against losing the last super admin is exact. No run of non-super-admins creates a wildcard holder, and
while super-admin is the only role with the wildcard, no run that gives it to no other role loses the
last super admin. Seeding is idempotent, and which super admins a start leaves, wherever it stops, is
known before it. `Admission` tells for every request who may do what afterwards.

**Texts.** Placeholder substitution in any map order and the legacy protocols' commands, read back from
their texts; the Argon2id hash string and raw base64; the client configuration and its parser; the
RouterOS route list; path confinement; and secret references.

## Findings

Where the code does less than its comments or a caller might expect, the model keeps the code's
behaviour, gives an input, and proves the exact condition:

- Deleting or stripping a custom role that carries the wildcard is not guarded
  (backend/handlers/rbac_handler.go:318-356). `Rbac.CustomWildcardRoleIsUnguarded` is a state where an
  admitted request removes the last super admin; the request is safe exactly under the condition of
  `Rbac.DeleteRoleIff` and `Rbac.SetRolePermissionsIff`.
- Seeding is described as safe to run on every startup (backend/rbac/seed.go:13-15). A first start that
  stops between creating the administrator and granting its role (backend/rbac/seed.go:85-95) leaves the
  panel locked for good: over every run of requests and starts from there every request is refused and
  nobody becomes a super admin (`Administration.InterruptedStartLocksForGood`). Stopping anywhere else
  can be made good (`Seeding.InterruptedSeedIff`).
- Every start strips the wildcard from the roles named "operator" and "viewer"
  (backend/rbac/seed.go:45-63), and with it the last super admin in `Seeding.WildOperatorIsStripped`. On a
  panel with accounts a start is safe, wherever it stops, exactly under the condition of
  `Seeding.SeedKeepsSuperIff`, which can be looked up before it.
- Lowering a peer's keepalive to 0 does not reach the device until a full sync
  (backend/wg/service.go:273-276; `Kernel.UpsertExactIff`, `Kernel.KeepaliveSurvives`).
- The MASQUERADE rule does not name the device (backend/wg/nat.go:27-41), so tearing one interface down
  (backend/wg/nat.go:74-98) can take away a rule another one demands. `NatShares.MasqueradeLost` is such
  a pair; it happens exactly if another interface that is up and masquerading has the same subnet and
  egress (`NatShares.TeardownSparesOthersIff`, `Firewall.NatRulesDisjointIff`). NAT exactness over runs
  therefore assumes pairwise distinct subnets (`NatShares.Tidy`).
- An automatically allocated address can still be refused (backend/handlers/peer_handler.go:144-170),
  exactly when a trashed peer holds it (`ControlPlane.ControlPlane.ChooseAddress`), as in
  `ControlPlane.ControlPlane.AllocationCollides`.
- The gateway address of the legacy protocols can leave its pool (backend/vpn/protocol_config.go:172-184),
  exactly under the condition of `Allocation.FirstUsableIff`, as in `Allocation.GatewayLeavesItsPool`.
- With the root directory "/" every relative file name is refused (backend/runtimeexec/executor.go:111-114;
  `PathConfinement.NothingBelowSlash`, and `PathConfinement.SafeJoinIff` for every other root).
- Creating a forward refuses the port an interface listens on, so that its own packets are not sent to a
  peer (backend/handlers/portforward_handler.go:31-51); creating or updating an interface does not look at
  the forwards (backend/handlers/interface_handler.go:196-229). `Packets.ListenPortIsTaken` is such an
  update; the listen ports stay free exactly if no forward has the new one
  (`Packets.ListenPortsStayFreeIff`).
- Updating an interface neither takes the old address off its link nor changes the link's MTU
  (backend/wg/service.go:58-88): an existing link keeps both, and the new address comes on top
  (`ControlPlane.ControlPlane.UpdateInterface`, `Kernel.Kernel.EnsureLink`).
- A new account asked to be inactive is stored active (backend/handlers/rbac_handler.go:86-97 with the
  column default in backend/models/rbac.go:17), and only then is something else stored than was asked for
  (`Rbac.NewAccountIsActive`).

## Files

| file | contents |
|---|---|
| Text.dfy, Base64.dfy | strings, numerals, splitting; raw base64 |
| Ipv4.dfy, Allocation.dfy | addresses, masks and CIDR in all their forms; allocation |
| Models.dfy, Database.dfy | rows and tables; integrity, single writes, the store |
| Firewall.dfy, IpTables.dfy | rules and ordered chains; the firewall object |
| Kernel.dfy | devices, peer configuration, the kernel object |
| KernelMirror.dfy, ForwardTags.dfy, NatShares.dfy | what the database demands of devices, tagged rules and NAT rules |
| PeerAddresses.dfy, Boot.dfy, ForwardService.dfy | allocation against stored peers; booting; forwards that must be installed |
| Packets.dfy | what the rules do to packets |
| ControlPlane.dfy, Runs.dfy | the handlers; whole runs |
| Rbac.dfy, Seeding.dfy, Admission.dfy, Administration.dfy | decisions and theorems; seeding; who may do what after each request; the handlers and runs |
| Placeholders.dfy, LegacyPlan.dfy, PasswordHash.dfy, ClientConfig.dfy, RouterScript.dfy, PathConfinement.dfy, SecretRefs.dfy | text transformations |

`dafny verify dfyconfig.toml` checks the whole project.

## Model

Paths are relative to the repository's root.

| member | source | states |
|---|---|---|
| `Runs.Serve` | backend/handlers/sync.go:14-76 | whatever requests, restarts, reboots, handshakes and route changes come and whatever fails in them, they make a run: at every moment integrity and tag safety hold, packets are forwarded wherever there are managed rules, and no forward takes SSH or the panel if none did; while nothing fails, devices that mirror the database, forwards that are served and, as long as the data is tidy, NAT rules that are exact stay so at every moment |
| `Runs.RightStaysRight` | backend/handlers/sync.go:14-76 | over any stretch of a run without a failed call: what is right at its start is right at its end |
| `Runs.RebootRecovers` | backend/main.go:46-60 | whatever failed before, from an error-free reboot on the devices mirror the database, every promised forward is installed and, while the data is tidy, the NAT rules are exact, until a call fails |
| `Runs.RestartServes` | backend/handlers/portforward_handler.go:470-485 | from an error-free start of the program on, every promised forward is installed until a call fails |
| `Runs.SecondStartIsIdle` | backend/handlers/portforward_handler.go:470-485 | a second error-free start after a reboot leaves every row, device and rule as it is |
| `Runs.PacketsArrive` | backend/wg/portforward.go:30-48 | at every safe moment where forwards are served: forwarding is on; a packet for a promised forward's egress, protocol and port is first sent to its peer's address and target port, then accepted into the tunnel and masqueraded there; established replies are accepted; and a mirroring device routes that address to that peer's key alone |
| `Runs.NetworkIsCarried` | backend/wg/nat.go:27-41 | at a safe moment where NAT is right, for every up and masquerading interface: forwarding is on, its network leaves by its egress masqueraded, and traffic out of, back into and within its tunnel is accepted |
| `Runs.HostStaysReachable` | backend/handlers/portforward_handler.go:31-51 | while no forward takes SSH or the panel, no managed rule rewrites a packet for them, in any order of the chain |
| `Runs.AlwaysSafe` | backend/handlers/portforward_handler.go:31-51 | at every moment of every run, whatever failed: integrity, tag safety, forwarding on wherever there are managed rules, and SSH and the panel untaken if they were at first |
| `Packets.ForwardCarries` | backend/wg/portforward.go:30-48 | an installed forward end to end: PREROUTING sends the packet to the target, FORWARD accepts it into the tunnel, POSTROUTING masquerades it, and answers are accepted |
| `Packets.ForwardVerdicts` | backend/wg/portforward.go:30-48 | the tagged rules of an installed forward match exactly: in PREROUTING the packets for its port, in FORWARD the packets from its egress to its target and established replies, in POSTROUTING the packets into the tunnel for its target; with DNAT, ACCEPT and MASQUERADE in turn |
| `Packets.ForwardDoesNoMore` | backend/wg/portforward.go:30-48 | whatever part of a forward is installed matches no other packet and does nothing else |
| `Packets.NewConnectionsComeInByEgress` | backend/wg/portforward.go:30-48 | a new connection matched by a managed FORWARD rule comes in by a forward's egress and is for its target; in the reply direction there is none |
| `Packets.InstalledIsForwarded` | backend/wg/portforward.go:52-71 | while a forward is installed, forwarding is on |
| `Packets.NatCarries` | backend/wg/nat.go:27-41 | where NAT rules are exact, packets of an up and masquerading interface's network are masqueraded when they leave by its egress, and device to egress, established egress to device and device to device are accepted |
| `Packets.NatDoesNoMore` | backend/wg/nat.go:27-41 | an untagged rule beyond the other programs' masquerades only such packets and accepts only such traffic |
| `Packets.NewConnectionsComeOutOfTunnels` | backend/wg/nat.go:27-41 | so it accepts a new connection only out of the tunnel of an up and masquerading interface |
| `Packets.NatIsForwarded` | backend/wg/nat.go:46-69 | while the NAT rules of such an interface are there, forwarding is on |
| `Packets.HostIsReached` | backend/handlers/portforward_handler.go:31-51 | with SSH and the panel untaken, the first managed match for a packet to them is none |
| `Packets.NewForwardKeepsListenPorts` | backend/handlers/portforward_handler.go:31-51 | a forward that is let in takes no interface's listen port |
| `Packets.ListenPortsStayFreeIff` | backend/handlers/interface_handler.go:196-229 | after an interface is created or updated no forward takes a listen port exactly if none has the port it was given |
| `Packets.ListenPortIsTaken` | backend/handlers/interface_handler.go:216-229 | an interface moved to a forwarded UDP port: its own packets then go to the forward's peer |
| `Packets.InstalledLands` | backend/wg/portforward.go:30-48 | every packet for an installed forward's egress, protocol and port is sent to its target |
| `Packets.InterfaceOutcome` | backend/handlers/sync.go:14-57 | what a mirroring device shows of an interface's row, and what exact NAT rules carry for it |
| `Runs.FreshPanelIsRight` | backend/main.go:40-60 | an empty database, no devices and other programs' rules: a run starts with everything right |
| `Runs.Handle` | backend/handlers/interface_handler.go:196-416 | every single event keeps what a run keeps |
| `ForwardService.ServedMoves` | backend/handlers/portforward_handler.go:393-404 | a change that leaves other forwards' rules alone and newly promises none of them keeps every promised forward installed, if it installs what it newly promises |
| `ForwardService.ServedAfterInterface` | backend/handlers/interface_handler.go:230-254 | so does a change to one interface and its peers whose forwards are settled after it |
| `ForwardService.DueCoversPromised` | backend/handlers/portforward_handler.go:430-468 | what a start installs covers every promised forward |
| `PeerAddresses.RoomAtPrefixZero` | backend/wg/service.go:348-361 | with fewer than 2^32 - 2 ids given out, a subnet of prefix 0 still has an assignable address, so the endless search cannot occur |
| `ControlPlane.ControlPlane.Reconcile` | backend/handlers/sync.go:14-35 | the full form: on success a live enabled interface's device holds exactly its live enabled peers with full entries, a disabled one has no device, every other device is untouched, the interface's NAT share becomes the one its row demands, and nothing at all changes where all that already held |
| `ControlPlane.ControlPlane.ApplyNat` | backend/handlers/sync.go:40-57 | installs or removes the interface's NAT rules to match its masquerade setting and stores the egress used, the stored one or else the default route's; only that column changes |
| `ControlPlane.ControlPlane.SyncPeer` | backend/handlers/sync.go:59-76 | the incremental form keeps the device mirroring the database and leaves every other peer's entry, session included, as it was |
| `ControlPlane.ControlPlane.LivePeers` | backend/handlers/sync.go:15-18 | preloading yields exactly the interface's peers that are not trashed |
| `ControlPlane.ControlPlane.CreatePeer` | backend/handlers/peer_handler.go:80-186 | not found, no address and conflict exactly under the stated conditions; a created peer gets its chosen address or the least one no live peer has; while nothing fails, its key is on the interface's device with that address, its preshared key and the asked keepalive, 25 if none was asked for; nothing else on the device changes |
| `ControlPlane.ControlPlane.ChooseAddress` | backend/handlers/peer_handler.go:144-170 | allocation fails exactly when no address is assignable, and its result collides exactly with a taken key or a trashed peer's address |
| `ControlPlane.ControlPlane.AllocationCollides` | backend/handlers/peer_handler.go:144-170 | an interface with one trashed peer where the automatic address collides although addresses are left |
| `ControlPlane.ControlPlane.NextAddress` | backend/handlers/peer_handler.go:144-157 | the address found is the least assignable one, none exactly when there is none |
| `ControlPlane.ControlPlane.UpdatePeer` | backend/handlers/peer_handler.go:198-244 | name and keepalive are as asked, the flag as asked or else as before; while nothing fails, the key is on an up interface's device exactly when that flag is set, with the asked keepalive if above 0; every other peer's entry stays |
| `ControlPlane.ControlPlane.DeletePeer` | backend/handlers/peer_handler.go:254-274 | trashing removes every rule of the peer's forwards and no other tagged rule; while nothing fails, its key is off the device; every other peer's entry and session stays |
| `ControlPlane.ControlPlane.RestorePeer` | backend/handlers/peer_handler.go:309-340 | refused exactly while the parent interface is trashed or gone; otherwise the row is live again, its enabled forwards are fully installed, and its key is on an up interface's device exactly if it is enabled; only its own entry changes; a peer that is not in the trash changes nothing at all |
| `ControlPlane.ControlPlane.PurgePeer` | backend/handlers/peer_handler.go:342-361 | rules and rows of the peer's forwards and the row itself are gone, and nothing else: every other peer's device entry and session stays |
| `ControlPlane.ControlPlane.CreateInterface` | backend/handlers/interface_handler.go:93-172 | conflict exactly when the name is taken, trash included; otherwise one new row; while nothing fails there is a device with its key, port, address and MTU, 1420 if none was asked for, and if it masquerades its network leaves by the asked egress, or else the default route; no tagged rule and no other device changes |
| `ControlPlane.ControlPlane.UpdateInterface` | backend/handlers/interface_handler.go:196-254 | while nothing fails: the device is there exactly when the interface is to be enabled, with the asked port and address, and the network at the asked address leaves by the asked egress, or else the default route, exactly if it is also to masquerade; forwards follow the flag; an existing link keeps its MTU and its old addresses; other interfaces' tagged rules and devices stay, whatever fails |
| `ControlPlane.ControlPlane.DeleteInterface` | backend/handlers/interface_handler.go:264-287 | no tagged rule of its forwards is left, its device is gone unless a call failed, and its peers are trashed with it; after a failed write either nothing or the peers alone are trashed; other interfaces' tagged rules and devices stay |
| `ControlPlane.ControlPlane.RestoreInterface` | backend/handlers/interface_handler.go:322-360 | an error-free restore brings row, every peer, the device, NAT and enabled forwards back; a failed first write changes nothing, a failed later step leaves the row alone or row and peers restored; other interfaces' tagged rules and devices stay |
| `ControlPlane.ControlPlane.PurgeInterface` | backend/handlers/interface_handler.go:362-392 | row, peers, forwards and all their rules are gone and every other row stays; a failed write leaves the peers or the row in place; other interfaces' tagged rules and devices stay |
| `ControlPlane.ControlPlane.SyncInterface` | backend/handlers/interface_handler.go:403-416 | a full reconcile on request, successful exactly when nothing failed; no tagged rule and no other device changes |
| `ControlPlane.ControlPlane.CreateForward` | backend/handlers/portforward_handler.go:105-174 | refused exactly for the host's own ports, missing or foreign peers, no egress and taken ports; otherwise every packet for the egress used, protocol and public port is sent to the peer's address and target port; SSH and the panel stay untaken; no other tag is touched |
| `ControlPlane.ControlPlane.UpdateForward` | backend/handlers/portforward_handler.go:188-227 | after success, if the forward is asked to be enabled, or was and nothing was asked, every packet for its port is sent to the asked target port if above 0, else the old one; if it is asked to be disabled, or was, no tagged rule is left |
| `ControlPlane.ControlPlane.DeleteForward` | backend/handlers/portforward_handler.go:238-249 | rules and row are gone, no other tag touched |
| `ControlPlane.ControlPlane.RemoveForwardRules` | backend/handlers/portforward_handler.go:363-375 | no rule of the given forwards is left and no other tag is touched, in any row order |
| `ControlPlane.ControlPlane.PurgeForwards` | backend/handlers/portforward_handler.go:377-391 | rules go, and rows too unless their deletion failed |
| `ControlPlane.ControlPlane.ReapplyForwards` | backend/handlers/portforward_handler.go:393-404 | without failures all four rules of every given forward are there; nothing changes if they already were |
| `ControlPlane.ControlPlane.ReconcileAll` | backend/handlers/portforward_handler.go:473-483 | from an empty kernel and foreign chains every enabled interface gets its exact device and NAT rules, and nothing else appears |
| `ControlPlane.ControlPlane.ReapplyAll` | backend/handlers/portforward_handler.go:430-468 | the enabled forwards of live enabled interfaces are fully installed, and only their tags change |
| `ControlPlane.ControlPlane.BootstrapRuntime` | backend/handlers/portforward_handler.go:470-485 | an error-free start yields exactly the demanded devices, NAT rules and forward rules, and changes nothing on a host that already has them |
| `ControlPlane.ControlPlane.Reboot` | backend/main.go:46-60 | after a host reboot, whatever failed before, an error-free start restores exactly what the database demands |
| `Database.Database.Write` | backend/handlers/peer_handler.go:230-237 | every single write must lead to a state with integrity, or fail and change nothing |
| `Database.Database.InsertPeer` | backend/models/peer.go:10-28 | an insert is a duplicate exactly when key or address is taken, trashed rows included; zero values become column defaults |
| `Database.Database.InsertInterface` | backend/models/interface.go:10-31 | an insert is a duplicate exactly when the name is taken, trashed rows included |
| `Database.Database.InsertForward` | backend/models/port_forward.go:17-25 | an insert is a duplicate exactly when protocol and public port are taken together |
| `Database.NameTakenIff` | backend/models/interface.go:10-31 | adding an interface keeps names unique exactly when its name is not taken, trash included |
| `Database.KeyTakenIff` | backend/models/peer.go:10-28 | adding a peer keeps keys unique exactly when its key is not taken, trash included |
| `Database.IpTakenIff` | backend/models/peer.go:10-28 | and addresses unique per interface exactly when its address is not taken there |
| `Database.PortTakenIff` | backend/models/port_forward.go:17-25 | adding a forward keeps ports unique exactly when protocol and port are not taken together |
| `Database.TrashInterfaceIff` | backend/handlers/interface_handler.go:273-280 | an interface may be trashed exactly once its peers are |
| `Database.RestoreInterfaceKeeps` | backend/handlers/interface_handler.go:341-344 | restoring an interface never collides with anything |
| `Database.RestorePeerIff` | backend/handlers/peer_handler.go:321-333 | a peer may be restored exactly when its interface is live; no index can collide |
| `Database.RestorePeersKeeps` | backend/handlers/interface_handler.go:345-353 | restoring an interface's peers never collides with anything |
| `Database.TrashPeersKeeps` | backend/handlers/interface_handler.go:273-276 | trashing the peers first leaves no live peer under the interface |
| `Database.DropInterfaceIff` | backend/handlers/interface_handler.go:379-386 | an interface row may go exactly when no peer row refers to it |
| `Database.PeersStayIff` | backend/handlers/peer_handler.go:309-361 | as long as peers do not move, only live peers under live interfaces are at stake |
| `Kernel.FullSyncExact` | backend/wg/service.go:159-186 | a full sync of separate peers leaves exactly their full entries, whatever was there |
| `Kernel.FullDeviceConfig` | backend/wg/service.go:166-177 | one config per enabled peer, in row order |
| `Kernel.UpsertExactIff` | backend/wg/service.go:250-278 | a single update sets the allowed address and keeps the session; preshared key and keepalive match the row exactly under the stated conditions on what was there |
| `Kernel.KeepaliveSurvives` | backend/wg/service.go:273-276 | a keepalive of 25 survives a single update that asks for 0 |
| `Kernel.UpsertFrame` | backend/wg/service.go:121-138 | a single update leaves every other entry untouched unless it held the peer's address |
| `Kernel.Kernel.EnsureLink` | backend/wg/service.go:58-88 | an existing link keeps its MTU and its other addresses |
| `Kernel.Kernel.ConfigureDevice` | backend/wg/service.go:99-119 | the device ends up with exactly the enabled peers of the list |
| `KernelMirror.SyncAdds` | backend/handlers/sync.go:59-76 | putting one changed peer on a mirrored device keeps the mirror and every other entry |
| `KernelMirror.SyncRemoves` | backend/handlers/sync.go:72-74 | taking one peer off a mirrored device keeps the mirror and every other entry |
| `KernelMirror.IncrementalAgreesWithFull` | backend/wg/service.go:99-104 | a device kept by single updates has the keys, addresses, preshared keys and requested keepalives a full sync would give it |
| `KernelMirror.FullSyncServes` | backend/handlers/sync.go:27-32 | the rows read for a full sync make the device serve exactly the live enabled peers |
| `KernelMirror.ReconciledMirror` | backend/handlers/sync.go:14-35 | reconciling one interface completes the mirror of the others |
| `KernelMirror.MirrorDown` | backend/handlers/sync.go:66-68 | changes to the peers of an interface that is not up need no device |
| `Firewall.ApplyThenRemove` | backend/wg/portforward.go:50-82 | applying and then removing rules that were all absent restores every chain exactly, order included |
| `Firewall.ApplyIdempotent` | backend/wg/nat.go:150-156 | applying twice is applying once |
| `Firewall.DropAllKeepsOrder` | backend/wg/nat.go:158-164 | removal keeps the order of every other rule |
| `Firewall.FreshForwardPlacement` | backend/wg/portforward.go:59-69 | a fresh forward's FORWARD rules precede everything already there, its other rules come last |
| `Firewall.NatRulesDisjointIff` | backend/wg/nat.go:27-41 | two interfaces' NAT rules are disjoint exactly when the devices differ and not both subnet and egress coincide |
| `Firewall.CountInstallAll` | backend/wg/nat.go:63-67 | how many copies of each rule installing leaves |
| `Firewall.CountDropAll` | backend/wg/nat.go:91-97 | how many copies of each rule removing leaves |
| `Firewall.TagUnique` | backend/wg/portforward.go:24-26 | a rule carries the tag of at most one forward |
| `IpTables.IpTables.SetupNat` | backend/wg/nat.go:46-69 | on success exactly the rules for the returned egress are ensured in order, with forwarding on; on failure a first part of them; no rule comes while forwarding is off |
| `IpTables.IpTables.TeardownNat` | backend/wg/nat.go:74-98 | exactly the rules for the stored or detected egress are dropped; without an egress nothing happens |
| `IpTables.IpTables.ApplyPortForward` | backend/wg/portforward.go:52-71 | on success all four rules are ensured, FORWARD ones on top, with forwarding on; on failure a first part of them; no rule comes while forwarding is off |
| `IpTables.IpTables.RemovePortForward` | backend/wg/portforward.go:73-82 | the four rules are dropped where present |
| `IpTables.IpTables.EnsureRule` | backend/wg/nat.go:150-156 | check, then append if absent |
| `IpTables.IpTables.EnsureRuleInsert` | backend/wg/portforward.go:84-98 | check, then insert at the top if absent |
| `IpTables.IpTables.DeleteRule` | backend/wg/nat.go:158-164 | check, then drop the first equal rule |
| `IpTables.IpTables.EnableForwarding` | backend/wg/nat.go:109-118 | forwarding is on afterwards, or the call failed |
| `ForwardTags.ForwardRemoved` | backend/wg/portforward.go:73-82 | removing the current row's rules leaves nothing with its tag and touches no other rule |
| `ForwardTags.ForwardInstalled` | backend/wg/portforward.go:52-71 | installing any first part of the current row's rules keeps the tags safe and touches no other tag |
| `ForwardTags.LookupAgrees` | backend/wg/portforward.go:30-48 | for every packet, the first managed match in PREROUTING, in whatever order the rules were installed, is the target of the stored forward that answers it, and none if no installed forward does |
| `ForwardTags.PutForwardSafe` | backend/handlers/portforward_handler.go:203-217 | a forward's row may be saved once its rules are gone |
| `ForwardTags.DropForwardSafe` | backend/handlers/portforward_handler.go:243-247 | a forward's row may be deleted once its rules are gone |
| `ForwardTags.TagSafeDropInterface` | backend/handlers/interface_handler.go:376-386 | an interface row may go once none of its forwards has a rule left |
| `NatShares.ShareRemoved` | backend/wg/nat.go:74-98 | tearing an interface down removes all it has and nothing else, with its stored egress or the default route |
| `NatShares.ShareInstalled` | backend/wg/nat.go:46-69 | setting an interface up leaves exactly the rules for the egress used |
| `NatShares.NatStepInstalled` | backend/handlers/sync.go:46-56 | what a masquerading reconcile does to the untagged rules, and that it does nothing where they are settled |
| `NatShares.NatStepRemoved` | backend/handlers/sync.go:41-44 | what a non-masquerading reconcile does to the untagged rules |
| `NatShares.TeardownSparesOthersIff` | backend/wg/nat.go:74-98 | tearing an interface down leaves exactly the rules the others demand if and only if no other interface that is up and masquerading has its subnet and the egress it is torn down with |
| `NatShares.MasqueradeLost` | backend/wg/nat.go:74-98 | two interfaces on one subnet and egress: tearing one down takes the MASQUERADE rule the other demands |
| `NatShares.NatAfterReconcile` | backend/handlers/interface_handler.go:231-247 | after the old share is taken out and the new row reconciled, the NAT rules are exact for the whole table |
| `NatShares.NatWithout` | backend/handlers/interface_handler.go:270-280 | an interface that demands nothing any more leaves the others' rules exact |
| `NatShares.OwnersApart` | backend/wg/nat.go:27-41 | interfaces with different names and subnets can own no common rule |
| `Boot.BootStep` | backend/handlers/portforward_handler.go:479-483 | one turn of the boot loop, for devices, mirror and NAT rules, and that it changes nothing on a settled host |
| `Boot.ForwardsBooted` | backend/handlers/portforward_handler.go:454-464 | from chains without tagged rules, boot installs exactly the due forwards' rules |
| `Boot.SettledWhenExact` | backend/handlers/sync.go:40-57 | where the NAT rules are exact, reconciling has none to touch |
| `Boot.SameDevices` | backend/handlers/sync.go:27-32 | reconciling an exact device changes nothing |
| `Allocation.IncrementedValue` | backend/wg/service.go:387-394 | incrementing the byte buffer is plus one modulo 256^n |
| `Allocation.IncIp` | backend/wg/service.go:387-394 | the in-place carry loop computes the increment |
| `Allocation.NextFreeIP` | backend/wg/service.go:335-362 | returns the numerically least free address after the network address, none exactly when all are used; terminates for every prefix of 1 or more, and for 0 when one is free |
| `Allocation.IsContained` | backend/wg/service.go:351-353 | the byte-wise containment test |
| `Allocation.CollectUsed` | backend/wg/service.go:343-346 | the set of texts to skip |
| `Allocation.AllocatedFits` | backend/handlers/peer_handler.go:158-163 | an allocated address always passes the check that follows |
| `Allocation.FittingIsFree` | backend/wg/service.go:230-248 | every address the check accepts and nobody holds can be found by the search |
| `Allocation.WrapOnlyAtPrefixZero` | backend/wg/service.go:348-361 | the search can wrap around only with prefix 0 |
| `Allocation.FirstUsableIp` | backend/vpn/protocol_config.go:172-184 | the in-place increment gives the next address, or the first of its 256 where the last byte wraps; for every prefix the result is in the pool exactly if the prefix is at most 24 or the address was not the last of its block |
| `Allocation.GatewayLeavesItsPool` | backend/vpn/protocol_config.go:172-184 | 10.0.0.127/25 gets the gateway 10.0.0.128, outside its pool |
| `Allocation.FirstUsableIff` | backend/vpn/protocol_config.go:172-184 | the gateway stays in its pool exactly when the prefix is at most 24 or the address was not the last of its block |
| `PeerAddresses.LeastIsTheOne` | backend/handlers/peer_handler.go:144-170 | the least assignable address passes the check and can only be taken by a trashed peer |
| `PeerAddresses.FreeIsAssignable` | backend/handlers/peer_handler.go:147-151 | the taken texts collected from the rows are exactly the live peers' addresses |
| `Ipv4.MaskedValue` | backend/wg/nat.go:142-148 | Go's byte-wise mask is value minus value modulo the block size |
| `Ipv4.ContainsIff` | backend/wg/service.go:241-243 | containment is equality of arithmetic networks |
| `Ipv4.FrontendNetworkAgrees` | frontend/src/features/wireguard/PeerConfigDialog.tsx:62-72 | the frontend's 32-bit shifts and masks give the backend's network, which is value minus value mod 2^(32-p) |
| `Ipv4.NetmaskPairMatchesCidr` | backend/openvpn/runtime.go:136-147 | the server directive's address/netmask pair matches an address exactly when the plan's CIDR contains it |
| `Ipv4.NetmaskValue` | backend/openvpn/operations.go:116-133 | the netmask is 2^32 - 2^(32-p) |
| `Ipv4.DottedInjective` | backend/wg/service.go:358-360 | different addresses have different texts |
| `Rbac.WildcardIsEffective` | backend/models/rbac.go:52-79 | holding the wildcard means holding it directly or through a role |
| `Rbac.GuardIsExact` | backend/handlers/rbac_handler.go:493-513 | while there is an active super admin, the guard refuses precisely the requests after which there would be none |
| `Rbac.UserRequestKeepsSuper` | backend/handlers/rbac_handler.go:112-228 | no request on an account, even one stopped half-way, takes away the last active super admin |
| `Rbac.RequestKeepsSuper` | backend/handlers/rbac_handler.go:286-356 | nor does a request on a role, unless it deletes or strips one that every active super admin needs |
| `Rbac.NewAccountIsActive` | backend/handlers/rbac_handler.go:86-97 | a new account is stored active: as asked for exactly unless it was asked to be inactive; it is an active super admin at once exactly if its roles or permissions carry the wildcard |
| `Rbac.DeleteRoleIff` | backend/handlers/rbac_handler.go:318-331 | deleting a role leaves an active super admin exactly when one does not need that role |
| `Rbac.SetRolePermissionsIff` | backend/handlers/rbac_handler.go:333-356 | replacing a role's permissions leaves one exactly when one does not need the role, or has it and the new permissions carry the wildcard |
| `Rbac.CustomWildcardRoleIsUnguarded` | backend/handlers/rbac_handler.go:482-491 | a state in which a role manager's accepted request leaves no super admin |
| `Rbac.TameAssignments` | backend/handlers/rbac_handler.go:417-471 | what someone who is not a super admin may assign never carries the wildcard |
| `Rbac.RolesDoNotEscalate` | backend/handlers/rbac_handler.go:333-356 | no role turns wild at the hands of someone who is not a super admin |
| `Rbac.UsersDoNotEscalate` | backend/handlers/rbac_handler.go:417-479 | no account comes to hold the wildcard through someone who does not |
| `Rbac.StepKeepsIntegrity` | backend/models/rbac.go:12-46 | unique names and references survive every request, refused, completed or stopped half-way |
| `Seeding.SeedKeepsSuperIff` | backend/rbac/seed.go:20-63 | on a non-empty user table, a start leaves an active super admin wherever it stops if and only if there is one before it and some active account holds the wildcard directly, through the super-admin role, or through a wild role that is not a default one |
| `Seeding.SeedSuperIff` | backend/rbac/seed.go:33-63 | account by account: who is an active super admin after a complete start, told from the state before it |
| `Seeding.SeedKeepsSuper` | backend/rbac/seed.go:20-63 | a start that fails part-way leaves an active super admin if there is one and a complete start would leave one |
| `Seeding.SeedKeepsEachSuper` | backend/rbac/seed.go:20-63 | while no default role but super-admin is wild, a start, even one that fails part-way, takes the wildcard from no active super admin |
| `Seeding.SeedCreatesAdmin` | backend/rbac/seed.go:65-98 | on an empty user table a complete seed creates one active super admin, under the trimmed name or admin, exactly when a password is given, and else nobody |
| `Seeding.SeedIsIdempotent` | backend/rbac/seed.go:13-19 | seeding again changes nothing |
| `Seeding.WildOperatorIsStripped` | backend/rbac/seed.go:45-63 | a state where the only super admin is one through a wild operator role, and every complete start leaves none |
| `Seeding.InterruptedSeedIff` | backend/rbac/seed.go:65-98 | a first start stopped anywhere, then a complete start: with both account writes made there is an active super admin, with the first alone there is none, and otherwise there is one exactly if the later start is given a password |
| `Seeding.InterruptedSeedStaysLocked` | backend/rbac/seed.go:85-95 | a seed stopped between its last two writes leaves an account no later seed will make a super admin |
| `Seeding.SeededIsReady` | backend/rbac/seed.go:45-63 | after any complete seed the super-admin role is there and carries the wildcard |
| `Seeding.StepKeepsReady` | backend/handlers/rbac_handler.go:482-491 | no request changes the super-admin role's name or permissions |
| `Seeding.UpkeepAllNoNewHolders` | backend/rbac/seed.go:33-63 | bringing permissions and roles up to date, wholly or partly, makes no account a holder of the wildcard |
| `Seeding.RolesSettle` | backend/rbac/seed.go:45-63 | after seeding, each default role has exactly its catalog permissions |
| `Seeding.DefaultsAreWellDefined` | backend/rbac/catalog.go:97-113 | the default roles have different names and only super-admin lists the wildcard |
| `Admission.AdmittedIff` | backend/routes/routes.go:146-162 | who is admitted to what: an active account holding the wildcard or the permission of that very route |
| `Admission.UpdateUserOutcome` | backend/handlers/rbac_handler.go:112-155 | switched on, an account may do exactly what it holds the names for; switched off, nothing; without a flag it is as before; every other account is as it was |
| `Admission.CreateUserOutcome` | backend/handlers/rbac_handler.go:64-110 | a new account may act at once and holds exactly the names of the asked roles and permissions; every other account is as it was |
| `Admission.DeleteUserOutcome` | backend/handlers/rbac_handler.go:157-176 | a deleted account is admitted to nothing; every other account is as it was |
| `Admission.SetUserRolesOutcome` | backend/handlers/rbac_handler.go:178-202 | the account then holds the names of the asked roles and its own; stopped half-way, the asked ones come on top; every other account is as it was |
| `Admission.SetUserPermissionsOutcome` | backend/handlers/rbac_handler.go:204-228 | the account then holds the asked names and those of its roles; stopped half-way, the asked ones come on top; every other account is as it was |
| `Admission.CreateRoleOutcome` | backend/handlers/rbac_handler.go:259-284 | a new role names exactly what was asked and changes no account |
| `Admission.RenameRoleOutcome` | backend/handlers/rbac_handler.go:286-316 | a new name for a role changes no account |
| `Admission.DeleteRoleOutcome` | backend/handlers/rbac_handler.go:318-331 | every account keeps exactly what it holds without the role |
| `Admission.SetRolePermissionsOutcome` | backend/handlers/rbac_handler.go:333-356 | whoever has the role holds the asked names instead of the old ones; stopped half-way, on top of them; every other role is as it was |
| `Admission.ReplacementMayStopHalfway` | backend/handlers/rbac_handler.go:178-228 | a replacement whose second write fails leaves the asked roles or permissions on top of the old ones |
| `Admission.SameIsAdmittedAlike` | backend/middleware/auth.go:30-87 | an account that is as it was is admitted to the same requests |
| `Admission.DefaultRoleNames` | backend/rbac/seed.go:45-63 | after a complete start each default role gives exactly its listed names |
| `Admission.RequiredExists` | backend/rbac/catalog.go:45-86 | after a complete start the permission of every administration route exists |
| `Admission.SuperAdminsAreAdmitted` | backend/rbac/catalog.go:94-101 | after a complete start, active accounts with the super-admin role are admitted to every request |
| `Admission.OperatorsAreRefused` | backend/rbac/catalog.go:97-113 | after a complete start, operators and viewers are admitted to no administration request |
| `Administration.TameRunKeepsSuper` | backend/handlers/rbac_handler.go:286-356 | from a panel where no role but super-admin carries the wildcard, every run of starts, whole or interrupted, and requests that give it to no role, such as all requests of non-super-admins, keeps an active super admin, and no other role ever carries it |
| `Administration.SeededWildRunKeepsSuper` | backend/handlers/rbac_handler.go:493-513 | a run in which no role but super-admin ever carries the wildcard keeps an active super admin |
| `Administration.AllowedRunKeepsSuper` | backend/handlers/rbac_handler.go:318-356 | a run keeps an active super admin that deletes or strips no wild role and starts only while no default role but super-admin is wild |
| `Administration.RunKeepsSuper` | backend/handlers/rbac_handler.go:493-513 | over every run of requests and starts there stays an active super admin, if each request on a role and each start comes while somebody is to remain one after it, which is checked on the state before it |
| `Administration.NoHolderEver` | backend/handlers/rbac_handler.go:417-479 | a started panel without a holder of the wildcard never has one again, over any run of requests and starts |
| `Administration.InterruptedState` | backend/rbac/seed.go:85-95 | what a first start leaves that stopped between its last two writes: the panel counts as started, and no account has a role or permission |
| `Administration.InterruptedStartLocksForGood` | backend/rbac/seed.go:85-95 | after a first start that stopped between its last two writes, over any run of requests and starts, whole or interrupted, every request is refused, no account changes and nobody is ever a super admin |
| `Administration.RequestsNeverEscalate` | backend/handlers/rbac_handler.go:417-479 | while only accounts without the wildcard act, the set of its holders never gains a member over any run of requests |
| `Administration.RunNeverEscalates` | backend/handlers/rbac_handler.go:417-479 | nor over any run of requests and starts once a first start has completed |
| `Administration.Accounts.Handle` | backend/handlers/rbac_handler.go:64-356 | every handler decides and writes as stated, in the middle of a replacement too |
| `Administration.Accounts.DedupeIds` | backend/handlers/rbac_handler.go:515-526 | the wanted ids, each once, zeros dropped |
| `Administration.Accounts.CountIsExistence` | backend/handlers/rbac_handler.go:430-433 | the row-count test accepts exactly when every wanted id exists |
| `Administration.Accounts.ResolveRoles` | backend/handlers/rbac_handler.go:417-443 | accepts exactly known roles, wild ones from super admins only |
| `Administration.Accounts.ResolvePermissions` | backend/handlers/rbac_handler.go:445-471 | accepts exactly known permissions, the wildcard from super admins only |
| `Administration.Accounts.GuardLastSuperAdmin` | backend/handlers/rbac_handler.go:493-513 | the loop over other active accounts finds a super admin exactly when there is one |
| `Administration.Accounts.EffectivePermissions` | backend/models/rbac.go:52-66 | the names held directly or through roles |
| `Administration.Accounts.RoleHasWildcard` | backend/handlers/rbac_handler.go:473-480 | the loop over a role's permissions |
| `Administration.Accounts.Admit` | backend/middleware/auth.go:30-87 | an active account that holds the route's permission or the wildcard |
| `Administration.Accounts.Seed` | backend/rbac/seed.go:20-31 | a complete seed on success, a first part of its writes on failure |
| `Administration.Accounts.SeedRoles` | backend/rbac/seed.go:45-63 | each default role brought in line, write by write |
| `Administration.Accounts.BootstrapAdmin` | backend/rbac/seed.go:65-98 | nothing unless the table is empty and the password is not blank |
| `Administration.Accounts.Serve` | backend/main.go:40-68 | what handlers and starts do one after another is a run in the sense of the run lemmas |
| `Placeholders.OrderDoesNotMatter` | backend/vpn/protocol_config.go:117-134 | for every order of the replacement map, a well-formed command becomes its simultaneous substitution, without a brace |
| `Placeholders.ReplaceFills` | backend/vpn/protocol_config.go:128-130 | replacing one key in a partly replaced template replaces that key's placeholders and nothing else |
| `Placeholders.ReplaceRuntimePlaceholders` | backend/vpn/protocol_config.go:117-134 | the loops over commands and map give each well-formed command's simultaneous substitution; around a single placeholder the text stays, and the instance id, sanitised name, listen port or pool stands in its place |
| `Placeholders.SanitizeConfigName` | backend/vpn/protocol_config.go:104-115 | the loop computes the sanitised name |
| `Placeholders.SanitizedIsClean` | backend/vpn/protocol_config.go:104-115 | the sanitised name has its own characters only, no dash at either end, no brace |
| `Placeholders.SanitizeIdempotent` | backend/vpn/protocol_config.go:104-115 | sanitising twice is sanitising once |
| `Placeholders.ValuesAreBraceFree` | backend/vpn/protocol_config.go:118-125 | no replacement value contains a brace |
| `Placeholders.NestedBracesDependOnOrder` | backend/vpn/protocol_config.go:128-130 | with braces nested inside a placeholder the order would decide |
| `LegacyPlan.BuildLegacyRuntimeApplyPlan` | backend/vpn/protocol_config.go:136-170 | refused exactly for another protocol, an empty sanitised name or an invalid pool; otherwise the plan's commands in order, without a brace, and read back: the port after --dport, the pool after -s, the instance id after /sstp/, and the sanitised name in every comment |
| `LegacyPlan.PlanIsRead` | backend/vpn/production_plan.go:51-66 | from the texts of a plan the port, the pool, the instance id and the name can be read back |
| `LegacyPlan.ReadsBack` | backend/vpn/production_plan.go:51-66 | what stands after a marker, up to a stop that comes next or to the end, is read back |
| `LegacyPlan.FirewallWellFormed` | backend/vpn/production_plan.go:54-63 | the legacy protocols' firewall commands have braces only as whole placeholders |
| `LegacyPlan.RuntimeWellFormed` | backend/vpn/production_plan.go:53-63 | so do its runtime commands |
| `PasswordHash.DecodeEncode` | backend/security/password.go:57-109 | decoding an encoded hash recovers parameters, salt and key, for all byte strings and all parameters in range |
| `PasswordHash.VerifyIff` | backend/security/password.go:46-79 | a hash verifies exactly the passwords deriving the same 32-byte key with memory 65536, time 3 and 2 threads, its own always |
| `PasswordHash.ScanParamsOf` | backend/security/password.go:94-97 | scanning the printed parameters gives them back |
| `PasswordHash.OthersAreRefused` | backend/security/password.go:81-93 | another algorithm is refused as malformed, another version as incompatible, whatever follows |
| `Base64.RoundTrip` | backend/security/password.go:61-62 | raw base64 decoding inverts encoding on all byte strings |
| `Base64.BytesRoundTripIff` | backend/security/password.go:98-105 | a sextet sequence decodes unless one is left over, and re-encodes to itself exactly when no bits are left over |
| `ClientConfig.BuildClientConfig` | backend/wg/service.go:304-333 | the text written piece by piece is the listed entries, absent ones left out |
| `ClientConfig.ReadsBack` | frontend/src/features/wireguard/PeerConfigDialog.tsx:26-31 | for trimmed values without line breaks, reading any name back gives what was printed, or the empty string if it was left out |
| `ClientConfig.ConfigReads` | frontend/src/features/wireguard/PeerConfigDialog.tsx:26-31 | key by key, what the browser reads from the printed file in terms of the server's and client's fields: the private key or its placeholder, the address with /32, endpoint and port, and the optional values or nothing |
| `ClientConfig.FieldMatchesIff` | frontend/src/features/wireguard/PeerConfigDialog.tsx:27-29 | a line matches a key exactly when the names agree up to case |
| `ClientConfig.FieldValue` | frontend/src/features/wireguard/PeerConfigDialog.tsx:30-30 | everything after the first equals sign is recovered, equals signs in keys included |
| `RouterScript.NetworkTextAgrees` | frontend/src/features/wireguard/PeerConfigDialog.tsx:62-72 | as text too, the frontend's network of an interface address is the backend's subnet |
| `RouterScript.NetworkTextIs` | frontend/src/features/wireguard/PeerConfigDialog.tsx:62-72 | whatever numerals the pattern accepts, the network of the address they stand for is printed, or nothing if out of range |
| `RouterScript.RoutesOfPieces` | frontend/src/features/wireguard/PeerConfigDialog.tsx:42-54 | normalising the address list loses no route |
| `RouterScript.RoutesIff` | frontend/src/features/wireguard/PeerConfigDialog.tsx:42-54 | the routes are exactly the trimmed pieces that look like a CIDR |
| `RouterScript.LooksLikeCidrIff` | frontend/src/features/wireguard/PeerConfigDialog.tsx:50-54 | what looks like one: four numerals of up to three digits and a prefix of up to two, and nothing else |
| `RouterScript.PrintedRoutes` | frontend/src/features/wireguard/PeerConfigDialog.tsx:42-54 | a list of printed networks, with white space around them, is read back as those networks in order |
| `RouterScript.SubnetRoutes` | frontend/src/features/wireguard/PeerConfigDialog.tsx:121-128 | the VPN subnet first if it is known, and every other route but the full tunnel, each once and nothing else |
| `RouterScript.DedupedFacts` | frontend/src/features/wireguard/PeerConfigDialog.tsx:126-128 | each route once, none lost |
| `PathConfinement.SafeJoinIff` | backend/runtimeexec/executor.go:100-116 | with absolute names disallowed, below any cleaned root but / a name is accepted exactly when its walk never climbs above the root and gets somewhere; the path is the root and where it got, without a .. component; the second check rejects nothing more |
| `PathConfinement.NothingBelowSlash` | backend/runtimeexec/executor.go:111-114 | below the root / the second check rejects everything |
| `PathConfinement.AbsoluteAllowed` | backend/runtimeexec/executor.go:100-116 | where absolute names are allowed, one leads to its cleaned path unless that is /, and relative names are treated as before |
| `PathConfinement.FirstCheckIff` | backend/runtimeexec/executor.go:108-110 | the first check passes exactly the relative names whose walk stays below |
| `PathConfinement.WriteFiles` | backend/runtimeexec/executor.go:65-77 | nothing outside the root changes; unless a write fails, it succeeds exactly when every name is safe, and then every name's path holds content planned for that path |
| `PathConfinement.RunCommands` | backend/runtimeexec/executor.go:86-97 | trimmed non-blank commands in order, up to and including the first failure |
| `SecretRefs.RefDetermines` | backend/secrets/crypto.go:83-94 | a reference determines the owner id and the sanitised secret name, whatever the scopes |
| `SecretRefs.RefsDiffer` | backend/handlers/openvpn_handler.go:149-166 | references of different owners or parts are different, instances' and clients' alike |
| `SecretRefs.NewRefIsFree` | backend/models/encrypted_secret.go:7-12 | the unique index never refuses a secret its owner does not have yet |
| `SecretRefs.SecretStore.StoreSecrets` | backend/handlers/openvpn_handler.go:149-167 | the loop stores every secret unless the database fails; the references stay pairwise different |
| `SecretRefs.SecretStore.CreateInstanceDraft` | backend/handlers/openvpn_handler.go:133-178 | all of an instance's secrets and references are stored, or nothing is; each reference in its field reads back as the scope openvpn-name, the instance id and that secret's name |
| `SecretRefs.SecretStore.CreateUserDraft` | backend/handlers/openvpn_handler.go:282-316 | all of a client's secrets and references are stored, or nothing is; each reference reads back as the scope openvpn-client-instance-name, the client id and that secret's name |
| `SecretRefs.AssignInstanceRefs` | backend/handlers/openvpn_handler.go:152-161 | each reference goes to the field of its part |
| `SecretRefs.RefOfSecrets` | backend/handlers/openvpn_handler.go:292-300 | each part's reference ends up under its own name |
| `SecretRefs.RunBecomesDash` | backend/secrets/crypto.go:88-94 | between two clean parts any run of other characters becomes one dash, and so does an underscore |
| `SecretRefs.SanitizeIsLoose` | backend/secrets/crypto.go:88-94 | white space around a part and upper case do not matter |

## Left out

- HTTP routing, JSON binding, field validation, ownership scoping, Swagger, React rendering, logging and pagination: plumbing around the modelled steps.
- Comments, DNS, endpoint, owner, timestamp and client-allowed-IPs columns: no modelled step depends on them.
- Interleaving of concurrent requests: the handlers check and then act without a transaction, so runs are serialised.
- IPv6 and IPv4-mapped text: addresses are canonical dotted-decimal IPv4, and pools, addresses and CIDRs enter as what parsing gave.
- Key parsing: keys are opaque texts compared as such; a key that does not parse is one of the failed calls.
- Argon2, AES-GCM, Curve25519 and random generation: opaque; the session token adds little beyond base64. Argon2's panic for zero time or threads is not modelled.
- The bodies of netlink, wgctrl, iptables and GORM calls: the three store objects stand for them. A failed kernel or firewall call changes nothing in the model, where the real one may have done part of its work.
- Failing deletions and checks of iptables rules, and failing reads: deletions and checks succeed, so no rule is left behind by a failed removal; tag safety depends on that.
- Kernel.KeepaliveSurvives: one concrete value of what Kernel.UpsertExactIff states in general.
- ControlPlane.ControlPlane.SyncPeer: the mirror fixes a keepalive only where the row asks for one above 0, as the code does.
- ControlPlane.ControlPlane.ReapplyForwards: does not say that forward rules are installed exactly for active peers, because the code looks at neither trashed peers nor, on create and update, disabled interfaces.
- Runs.Serve: NAT exactness assumes pairwise distinct interface subnets and that other programs' rules are not of an interface's form at every moment.
- Runs.SecondStartIsIdle: does not say that the forwarding switch stays off where it is off.
- Runs.Handle: an event that allocates an address assumes fewer than 2^32 - 2 ids given out, so that the search is known to end.
- Allocation.NextFreeIP: for prefix 0 with every address used the search does not end; that case is excluded by its precondition.
- Rbac.StepKeepsIntegrity: names, passwords and descriptions other than the unique ones are not stored.
- LegacyPlan.BuildLegacyRuntimeApplyPlan: the preview files are not rendered.
- Placeholders.ReplaceRuntimePlaceholders: the pool is substituted as canonical CIDR text, where the program substitutes the trimmed text as given; the command tables of OpenVPN and WireGuard are left out.
- PathConfinement.WriteFiles: which content wins where two names resolve to the same path depends on the map's order.
- OpenVPN teardown by text filtering and uniqueness of sanitised instance names: names that sanitise alike collide, so no clean property holds.
- Protocol specifications, roadmaps, service plans, mappers, the registry and enablement gates: constant tables or one-step facts.
