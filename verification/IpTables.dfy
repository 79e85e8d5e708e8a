/** The host's firewall as an object: the chains, the forwarding switch and the default
    route. Each external call either happens or fails and leaves the chains alone; which
    of the two is up to the host. Checks and deletions do what they are asked. */
module IpTables {
  import opened Text
  import opened Models
  import opened Firewall

  /** The egress a NAT call uses: the stored name, else the default-route interface. */
  function EgressFor(stored: string, uplink: string): string {
    if Trim(stored) != "" then Trim(stored) else uplink
  }

  /** TeardownNAT's effect; without any egress there is nothing to target. */
  function TornDown(ch: Chains, address: Cidr, device: string, egress: string): Chains {
    if egress == "" then ch else DropAll(ch, NatRules(SubnetOf(address), device, egress))
  }

  class IpTables {
    var chains: Chains
    var forwarding: bool
    /** The interface with the IPv4 default route, "" when there is none. */
    var uplink: string
    /** Number of external calls that have failed. */
    var failures: nat

    ghost predicate Valid()
      reads this
    {
      WellPlaced(chains) && Trimmed(uplink)
    }

    constructor (initial: Chains, route: string)
      requires WellPlaced(initial) && Trimmed(route)
      ensures Valid() && chains == initial && uplink == route && failures == 0
    {
      chains, forwarding, uplink, failures := initial, false, route, 0;
    }

    /** A reboot leaves the rules other programs install. */
    method Reset(initial: Chains)
      requires Valid() && WellPlaced(initial)
      modifies this`chains, this`forwarding
      ensures Valid() && chains == initial
    {
      chains, forwarding := initial, false;
    }

    /** The default route moves to another interface, or goes away. */
    method ChangeRoute(route: string)
      requires Valid() && Trimmed(route)
      modifies this`uplink
      ensures Valid() && uplink == route
    {
      uplink := route;
    }

    /** The outcome of one external call. */
    method Attempt() returns (ok: bool)
      modifies this`failures
      ensures failures == if ok then old(failures) else old(failures) + 1
    {
      ok := *;
      if !ok {
        failures := failures + 1;
      }
    }

    method Check(r: Rule) returns (present: bool)
      ensures present <==> Has(chains, r)
    {
      present := r in chains.Get(r.chain);
    }

    method EnsureRule(r: Rule) returns (ok: bool)
      requires Valid()
      modifies this`chains, this`failures
      ensures Valid()
      ensures ok ==> chains == Installed(old(chains), r, false) && failures == old(failures)
      ensures !ok ==> chains == old(chains) && failures > old(failures)
    {
      var present := Check(r);
      if present {
        return true;
      }
      ok := Attempt();
      if ok {
        chains := chains.Set(r.chain, chains.Get(r.chain) + [r]);
      }
    }

    method EnsureRuleInsert(r: Rule) returns (ok: bool)
      requires Valid() && r.chain == Forward
      modifies this`chains, this`failures
      ensures Valid()
      ensures ok ==> chains == Installed(old(chains), r, true) && failures == old(failures)
      ensures !ok ==> chains == old(chains) && failures > old(failures)
    {
      var present := Check(r);
      if present {
        return true;
      }
      ok := Attempt();
      if ok {
        chains := chains.Set(r.chain, [r] + chains.Get(r.chain));
      }
    }

    method DeleteRule(r: Rule)
      requires Valid()
      modifies this`chains
      ensures Valid() && chains == Dropped(old(chains), r)
    {
      RemoveFirstSubset(chains.Get(r.chain), r);
      var present := Check(r);
      if !present {
        RemoveMissing(chains.Get(r.chain), r);
        SameChains(Dropped(chains, r), chains);
        return;
      }
      chains := chains.Set(r.chain, RemoveFirst(chains.Get(r.chain), r));
    }

    method EnableForwarding() returns (ok: bool)
      modifies this`forwarding, this`failures
      ensures old(forwarding) ==> forwarding
      ensures ok ==> forwarding && failures == old(failures)
      ensures !ok ==> failures > old(failures)
    {
      if forwarding {
        return true;
      }
      ok := Attempt();
      if ok {
        forwarding := true;
      }
    }

    /** Installs rules in order and stops at the first failure. */
    method InstallRules(rs: seq<Rule>, front: bool) returns (ok: bool)
      requires Valid()
      modifies this`chains, this`failures
      ensures Valid()
      ensures ok ==> chains == InstallAll(old(chains), rs, front) && failures == old(failures)
      ensures !ok ==> failures > old(failures)
      ensures exists k: nat :: k <= |rs| && chains == InstallAll(old(chains), rs[..k], front)
    {
      var i := 0;
      assert rs[..0] == [];
      while i < |rs|
        invariant 0 <= i <= |rs| && Valid()
        invariant chains == InstallAll(old(chains), rs[..i], front) && failures == old(failures)
      {
        assert rs[..i + 1][..i] == rs[..i];
        if GoesOnTop(rs[i], front) {
          ok := EnsureRuleInsert(rs[i]);
        } else {
          ok := EnsureRule(rs[i]);
        }
        if !ok {
          return false;
        }
        i := i + 1;
      }
      assert rs[..|rs|] == rs;
      return true;
    }

    /** Deletes rules in order. */
    method DeleteRules(rs: seq<Rule>)
      requires Valid()
      modifies this`chains
      ensures Valid() && chains == DropAll(old(chains), rs)
    {
      var i := 0;
      while i < |rs|
        invariant 0 <= i <= |rs| && Valid()
        invariant chains == DropAll(old(chains), rs[..i])
      {
        assert rs[..i + 1][..i] == rs[..i];
        DeleteRule(rs[i]);
        i := i + 1;
      }
      assert rs[..|rs|] == rs;
    }

    /** SetupNAT; on success the egress returned is the one the rules name. */
    method SetupNat(address: Cidr, device: string, stored: string) returns (egress: string, ok: bool)
      requires Valid()
      modifies this
      ensures Valid() && uplink == old(uplink)
      ensures egress == EgressFor(stored, uplink)
      ensures (old(forwarding) ==> forwarding) && (forwarding || chains == old(chains))
      ensures ok ==> egress != "" && forwarding && failures == old(failures)
      ensures ok ==> chains == InstallAll(old(chains), NatRules(SubnetOf(address), device, egress), false)
      ensures !ok ==> failures > old(failures)
      ensures exists k: nat ::
                k <= 4 && chains == InstallAll(old(chains), NatRules(SubnetOf(address), device, egress)[..k], false)
    {
      egress := EgressFor(stored, uplink);
      var rs := NatRules(SubnetOf(address), device, egress);
      assert InstallAll(chains, rs[..0], false) == chains;
      if egress == "" {
        failures := failures + 1;
        return egress, false;
      }
      ok := EnableForwarding();
      if ok {
        ok := InstallRules(rs, false);
      }
    }

    method TeardownNat(address: Cidr, device: string, stored: string)
      requires Valid()
      modifies this`chains
      ensures Valid() && chains == TornDown(old(chains), address, device, EgressFor(stored, uplink))
    {
      var egress := EgressFor(stored, uplink);
      if egress != "" {
        DeleteRules(NatRules(SubnetOf(address), device, egress));
      }
    }

    method ApplyPortForward(id: nat, pf: PortForward, device: string) returns (ok: bool)
      requires Valid()
      modifies this
      ensures Valid() && uplink == old(uplink)
      ensures (old(forwarding) ==> forwarding) && (forwarding || chains == old(chains))
      ensures ok ==> forwarding && failures == old(failures)
      ensures ok ==> chains == InstallAll(old(chains), PfRules(id, pf, device), true)
      ensures !ok ==> failures > old(failures)
      ensures exists k: nat :: k <= 4 && chains == InstallAll(old(chains), PfRules(id, pf, device)[..k], true)
    {
      assert InstallAll(chains, PfRules(id, pf, device)[..0], true) == chains;
      if Trim(pf.egress) == "" {
        failures := failures + 1;
        return false;
      }
      ok := EnableForwarding();
      if ok {
        ok := InstallRules(PfRules(id, pf, device), true);
      }
    }

    method RemovePortForward(id: nat, pf: PortForward, device: string)
      requires Valid()
      modifies this`chains
      ensures Valid() && chains == DropAll(old(chains), PfRules(id, pf, device))
    {
      DeleteRules(PfRules(id, pf, device));
    }
  }
}
