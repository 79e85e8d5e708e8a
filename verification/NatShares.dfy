/** The untagged NAT rules: the share each interface row demands, other programs' rules
    beside it, and how setting up, tearing down and reconciling move it. */
module NatShares {
  import opened Text
  import opened Models
  import opened Firewall
  import opened Database
  import opened Kernel
  import opened IpTables
  import opened KernelMirror
  import opened ForwardTags

  // --- The rules interfaces demand ---

  predicate Natted(i: Interface) {
    Up(i) && i.masquerade
  }

  function NatSeq(i: Interface): seq<Rule> {
    NatRules(SubnetOf(i.address), i.name, i.egress)
  }

  /** A rule that could be interface i's, whatever its egress. */
  ghost predicate Owns(i: Interface, r: Rule) {
    exists e: string :: r in NatRules(SubnetOf(i.address), i.name, e)
  }

  function RuleSet(rs: seq<Rule>): set<Rule> {
    set r | r in rs
  }

  function DemandOf(i: Interface): set<Rule> {
    if Natted(i) then RuleSet(NatSeq(i)) else {}
  }

  /** The NAT rules the interface table asks for. */
  ghost function Demand(m: map<nat, Interface>): set<Rule> {
    set i, r | i in m && r in DemandOf(m[i]) :: r
  }

  /** Hypotheses on the data: no two interface rows, trashed ones included, share a subnet,
      and other programs' rules are not of any interface's form. */
  ghost predicate Tidy(t: Tables, base: Chains) {
    && (forall i, j ::
          i in t.ifaces && j in t.ifaces && SubnetOf(t.ifaces[i].address) == SubnetOf(t.ifaces[j].address) ==> i == j)
    && (forall i, r :: i in t.ifaces && Owns(t.ifaces[i], r) ==> Count(base, r) == 0)
  }

  /** Where no other program has rules, that is only that the networks differ. */
  lemma TidyAlone(t: Tables)
    ensures Tidy(t, Chains([], [], [])) <==>
            forall i, j ::
              i in t.ifaces && j in t.ifaces && SubnetOf(t.ifaces[i].address) == SubnetOf(t.ifaces[j].address)
              ==> i == j
  {
    assert forall r :: Count(Chains([], [], []), r) == 0;
  }

  /** The untagged rules in the chains are the other programs' and, once each, those in w. */
  ghost predicate NatBag(ch: Chains, base: Chains, w: set<Rule>) {
    forall r: Rule :: !Tagged(r) ==> Count(ch, r) == Count(base, r) + (if r in w then 1 else 0)
  }

  ghost predicate NatExact(t: Tables, ch: Chains, base: Chains) {
    && NatBag(ch, base, Demand(t.ifaces))
    && (forall i :: i in t.ifaces && Natted(t.ifaces[i]) ==> t.ifaces[i].egress != "")
  }

  /** Interfaces with different names and subnets own different rules. */
  lemma OwnersApart(i: Interface, j: Interface, r: Rule)
    requires i.name != j.name && SubnetOf(i.address) != SubnetOf(j.address)
    requires Owns(i, r)
    ensures !Owns(j, r)
  {
    var e: string :| r in NatRules(SubnetOf(i.address), i.name, e);
    forall d: string
      ensures r !in NatRules(SubnetOf(j.address), j.name, d)
    {
      NatRulesDisjointIff(SubnetOf(i.address), i.name, e, SubnetOf(j.address), j.name, d);
    }
  }

  lemma DemandSplit(m: map<nat, Interface>, id: nat)
    requires id in m
    ensures Demand(m) == Demand(m - {id}) + DemandOf(m[id])
  {
    var rest := m - {id};
    forall r
      ensures r in Demand(m) <==> r in Demand(rest) || r in DemandOf(m[id])
    {
      if r in Demand(m) {
        var i :| i in m && r in DemandOf(m[i]);
        assert i != id ==> i in rest && rest[i] == m[i];
      }
      if r in Demand(rest) {
        var i :| i in rest && r in DemandOf(rest[i]);
        assert i in m && m[i] == rest[i];
      }
    }
  }

  /** What the others demand is not interface id's. */
  lemma OthersNotOwned(t: Tables, base: Chains, id: nat, r: Rule)
    requires UniqueNames(t) && Tidy(t, base) && id in t.ifaces
    requires r in Demand(t.ifaces - {id})
    ensures !Owns(t.ifaces[id], r)
  {
    var rest := t.ifaces - {id};
    var j :| j in rest && r in DemandOf(rest[j]);
    assert rest[j] == t.ifaces[j] && j != id;
    assert r in NatRules(SubnetOf(rest[j].address), rest[j].name, rest[j].egress);
    assert Owns(t.ifaces[j], r);
    OwnersApart(t.ifaces[j], t.ifaces[id], r);
  }

  predicate BaseFree(base: Chains, address: Cidr, name: string, e: string) {
    forall r :: r in NatRules(SubnetOf(address), name, e) ==> Count(base, r) == 0
  }

  /** TeardownNAT takes exactly its rules out of the bag. */
  lemma NatTornDown(ch: Chains, base: Chains, w: set<Rule>, address: Cidr, name: string, e: string)
    requires NatBag(ch, base, w) && BaseFree(base, address, name, e)
    ensures NatBag(TornDown(ch, address, name, e), base,
                   if e == "" then w else w - RuleSet(NatRules(SubnetOf(address), name, e)))
  {
    if e != "" {
      var rs := NatRules(SubnetOf(address), name, e);
      NatRulesUntagged(SubnetOf(address), name, e);
      forall r: Rule | !Tagged(r)
        ensures Count(DropAll(ch, rs), r) == Count(base, r) + (if r in w - RuleSet(rs) then 1 else 0)
      {
        CountDropAll(ch, rs, r);
      }
    }
  }

  lemma TornDownKeepsTags(ch: Chains, address: Cidr, name: string, e: string, f: nat)
    ensures SameTag(ch, TornDown(ch, address, name, e), f)
  {
    var rs := NatRules(SubnetOf(address), name, e);
    NatRulesUntagged(SubnetOf(address), name, e);
    forall r: Rule | HasTag(r, f)
      ensures Count(ch, r) == Count(TornDown(ch, address, name, e), r)
    {
      assert Tagged(r);
      CountDropAll(ch, rs, r);
    }
  }

  /** SetupNAT adds exactly its rules to the bag. */
  lemma NatInstalled(ch: Chains, base: Chains, w: set<Rule>, address: Cidr, name: string, e: string)
    requires NatBag(ch, base, w) && BaseFree(base, address, name, e)
    ensures var rs := NatRules(SubnetOf(address), name, e);
            NatBag(InstallAll(ch, rs, false), base, w + RuleSet(rs))
  {
    var rs := NatRules(SubnetOf(address), name, e);
    NatRulesUntagged(SubnetOf(address), name, e);
    forall r: Rule | !Tagged(r)
      ensures Count(InstallAll(ch, rs, false), r) == Count(base, r) + (if r in w + RuleSet(rs) then 1 else 0)
    {
      CountInstallAll(ch, rs, false, r);
    }
  }

  lemma NatInstallKeepsTags(ch: Chains, address: Cidr, name: string, e: string, k: nat, f: nat)
    requires k <= 4
    ensures SameTag(ch, InstallAll(ch, NatRules(SubnetOf(address), name, e)[..k], false), f)
  {
    var rs := NatRules(SubnetOf(address), name, e);
    NatRulesUntagged(SubnetOf(address), name, e);
    forall r: Rule | HasTag(r, f)
      ensures Count(ch, r) == Count(InstallAll(ch, rs[..k], false), r)
    {
      assert Tagged(r);
      CountInstallAll(ch, rs[..k], false, r);
      assert r in rs[..k] ==> r in rs;
    }
  }

  // --- One interface's share of the NAT rules ---

  /** w contains, of interface id's possible rules, at most the ones its stored row demands. */
  ghost predicate Fits(i: Interface, w: set<Rule>) {
    forall r :: r in w && Owns(i, r) ==> r in DemandOf(i) && Trimmed(i.egress) && i.egress != ""
  }

  ghost function Rest(w: set<Rule>, i: Interface): set<Rule> {
    set r | r in w && !Owns(i, r)
  }

  ghost predicate OwnFree(base: Chains, i: Interface) {
    forall r :: Owns(i, r) ==> Count(base, r) == 0
  }

  lemma OwnFreeGives(base: Chains, i: Interface, e: string)
    requires OwnFree(base, i)
    ensures BaseFree(base, i.address, i.name, e)
  {
    forall r | r in NatRules(SubnetOf(i.address), i.name, e)
      ensures Count(base, r) == 0
    {
      assert Owns(i, r);
    }
  }

  /** Tearing interface i down, with its stored egress or the default route, removes all it has. */
  lemma ShareRemoved(ch: Chains, base: Chains, w: set<Rule>, i: Interface, uplink: string)
    requires NatBag(ch, base, w) && Fits(i, w) && OwnFree(base, i)
    ensures NatBag(TornDown(ch, i.address, i.name, EgressFor(i.egress, uplink)), base, Rest(w, i))
  {
    var e := EgressFor(i.egress, uplink);
    var rs := NatRules(SubnetOf(i.address), i.name, e);
    OwnFreeGives(base, i, e);
    NatTornDown(ch, base, w, i.address, i.name, e);
    forall r
      ensures r in Rest(w, i) <==> r in (if e == "" then w else w - RuleSet(rs))
    {
      if r in w && Owns(i, r) {
        TrimFixes(i.egress);
        assert r in NatSeq(i);
      }
      if r in rs {
        assert Owns(i, r);
      }
    }
    assert Rest(w, i) == if e == "" then w else w - RuleSet(rs);
  }

  /** Setting interface i up with egress e leaves exactly the rules for e. */
  lemma ShareInstalled(ch: Chains, base: Chains, w: set<Rule>, i: Interface, uplink: string)
    requires NatBag(ch, base, w) && Fits(i, w) && OwnFree(base, i)
    ensures var rs := NatRules(SubnetOf(i.address), i.name, EgressFor(i.egress, uplink));
            NatBag(InstallAll(ch, rs, false), base, Rest(w, i) + RuleSet(rs))
  {
    var e := EgressFor(i.egress, uplink);
    var rs := NatRules(SubnetOf(i.address), i.name, e);
    OwnFreeGives(base, i, e);
    NatInstalled(ch, base, w, i.address, i.name, e);
    forall r
      ensures r in Rest(w, i) + RuleSet(rs) <==> r in w + RuleSet(rs)
    {
      if r in w && Owns(i, r) {
        TrimFixes(i.egress);
        assert r in NatSeq(i);
      }
    }
    assert Rest(w, i) + RuleSet(rs) == w + RuleSet(rs);
  }

  /** The two bags a handler meets: interface id's share still there, or already gone. */
  lemma FullDemandFits(t: Tables, base: Chains, id: nat)
    requires Integrity(t) && Tidy(t, base) && id in t.ifaces
    requires Natted(t.ifaces[id]) ==> t.ifaces[id].egress != ""
    ensures Fits(t.ifaces[id], Demand(t.ifaces)) && Rest(Demand(t.ifaces), t.ifaces[id]) == Demand(t.ifaces - {id})
    ensures OwnFree(base, t.ifaces[id])
  {
    var i := t.ifaces[id];
    DemandSplit(t.ifaces, id);
    forall r | r in Demand(t.ifaces - {id})
      ensures !Owns(i, r)
    {
      OthersNotOwned(t, base, id, r);
    }
    forall r | r in DemandOf(i)
      ensures Owns(i, r)
    {
      assert r in NatRules(SubnetOf(i.address), i.name, i.egress);
    }
  }

  lemma OthersDemandFits(t: Tables, base: Chains, id: nat)
    requires Integrity(t) && Tidy(t, base) && id in t.ifaces
    ensures Fits(t.ifaces[id], Demand(t.ifaces - {id}))
            && Rest(Demand(t.ifaces - {id}), t.ifaces[id]) == Demand(t.ifaces - {id})
    ensures OwnFree(base, t.ifaces[id])
  {
    forall r | r in Demand(t.ifaces - {id})
      ensures !Owns(t.ifaces[id], r)
    {
      OthersNotOwned(t, base, id, r);
    }
  }

  // --- A reconciled interface ---

  /** What reconciling does to the untagged rules: whatever share the interface had, as long
      as it was the one its row demanded, it ends with the share its new row demands. */
  ghost predicate NatStep(base: Chains, a: Chains, b: Chains, before: Interface, after: Interface) {
    forall w: set<Rule> :: NatBag(a, base, w) && Fits(before, w) && OwnFree(base, before)
      ==> NatBag(b, base, Rest(w, before) + DemandOf(after))
  }

  /** Nothing to do: the share is already the demanded one. */
  ghost predicate NatSettled(ch: Chains, i: Interface) {
    if Natted(i) then Trimmed(i.egress) && i.egress != "" && forall r :: r in NatSeq(i) ==> Has(ch, r)
    else forall r :: Owns(i, r) ==> !Has(ch, r)
  }

  lemma NatStepRemoved(base: Chains, a: Chains, i: Interface, uplink: string)
    requires !Natted(i)
    ensures NatStep(base, a, TornDown(a, i.address, i.name, EgressFor(i.egress, uplink)), i, i)
    ensures SameTags(a, TornDown(a, i.address, i.name, EgressFor(i.egress, uplink)))
    ensures NatSettled(a, i) ==> TornDown(a, i.address, i.name, EgressFor(i.egress, uplink)) == a
  {
    var e := EgressFor(i.egress, uplink);
    var b := TornDown(a, i.address, i.name, e);
    forall w: set<Rule> | NatBag(a, base, w) && Fits(i, w) && OwnFree(base, i)
      ensures NatBag(b, base, Rest(w, i) + DemandOf(i))
    {
      ShareRemoved(a, base, w, i, uplink);
      assert Rest(w, i) + DemandOf(i) == Rest(w, i);
    }
    forall f: nat
      ensures SameTag(a, b, f)
    {
      TornDownKeepsTags(a, i.address, i.name, e, f);
    }
    if NatSettled(a, i) && e != "" {
      var rs := NatRules(SubnetOf(i.address), i.name, e);
      forall r | r in rs
        ensures !Has(a, r)
      {
        assert Owns(i, r);
      }
      DropAbsent(a, rs);
    }
  }

  lemma NatStepInstalled(base: Chains, a: Chains, i: Interface, uplink: string)
    requires Natted(i)
    ensures var e := EgressFor(i.egress, uplink);
            NatStep(base, a, InstallAll(a, NatRules(SubnetOf(i.address), i.name, e), false), i, i.(egress := e))
    ensures NatSettled(a, i) ==> EgressFor(i.egress, uplink) == i.egress && InstallAll(a, NatSeq(i), false) == a
  {
    var e := EgressFor(i.egress, uplink);
    var rs := NatRules(SubnetOf(i.address), i.name, e);
    forall w: set<Rule> | NatBag(a, base, w) && Fits(i, w) && OwnFree(base, i)
      ensures NatBag(InstallAll(a, rs, false), base, Rest(w, i) + DemandOf(i.(egress := e)))
    {
      ShareInstalled(a, base, w, i, uplink);
      assert NatSeq(i.(egress := e)) == rs;
    }
    if NatSettled(a, i) {
      TrimFixes(i.egress);
      InstallPresent(a, NatSeq(i), false);
    }
  }

  lemma NatInstallKeepsAllTags(a: Chains, b: Chains, address: Cidr, name: string, e: string)
    requires exists k: nat :: k <= 4 && b == InstallAll(a, NatRules(SubnetOf(address), name, e)[..k], false)
    ensures SameTags(a, b)
  {
    var k: nat :| k <= 4 && b == InstallAll(a, NatRules(SubnetOf(address), name, e)[..k], false);
    forall f: nat
      ensures SameTag(a, b, f)
    {
      NatInstallKeepsTags(a, address, name, e, k, f);
    }
  }

  lemma EgressForTrimmed(stored: string, uplink: string)
    requires Trimmed(uplink)
    ensures Trimmed(EgressFor(stored, uplink))
  {
    TrimIsTrimmed(stored);
  }

  /** A stored egress is used, and the default route's only where none is stored. */
  ghost function EgressOf(i: Interface, uplink: string): string {
    if i.egress != "" then i.egress else uplink
  }

  lemma EgressChosen(t: Tables, id: nat, uplink: string)
    requires Integrity(t) && id in t.ifaces
    ensures EgressFor(t.ifaces[id].egress, uplink) == EgressOf(t.ifaces[id], uplink)
  {
    TrimFixes(t.ifaces[id].egress);
  }

  // --- NAT across a handler ---

  lemma NatExactMoves(a: Tables, b: Tables, before: Chains, after: Chains, base: Chains)
    requires NatExact(a, before, base) && a.ifaces == b.ifaces && SameUntagged(before, after)
    ensures NatExact(b, after, base)
  {
  }

  lemma NatExactParts(t: Tables, ch: Chains, base: Chains)
    ensures NatExact(t, ch, base) <==> NatBag(ch, base, Demand(t.ifaces)) && EgressesKnown(t.ifaces)
  {
  }

  /** Tidiness looks at names and addresses only. */
  lemma TidyMoves(a: Tables, b: Tables, base: Chains)
    requires Tidy(a, base)
    requires forall i :: i in b.ifaces ==>
               i in a.ifaces && b.ifaces[i].address == a.ifaces[i].address && b.ifaces[i].name == a.ifaces[i].name
    ensures Tidy(b, base)
  {
    forall i, r | i in b.ifaces && Owns(b.ifaces[i], r)
      ensures Count(base, r) == 0
    {
      assert Owns(a.ifaces[i], r);
    }
  }

  ghost predicate EgressesKnown(m: map<nat, Interface>) {
    forall i :: i in m && Natted(m[i]) ==> m[i].egress != ""
  }

  /** Tearing interface id down leaves what the other interfaces demand. */
  lemma NatAfterTeardown(t: Tables, a: Chains, base: Chains, id: nat, uplink: string)
    requires Integrity(t) && Tidy(t, base) && NatExact(t, a, base) && id in t.ifaces
    ensures var i := t.ifaces[id];
            NatBag(TornDown(a, i.address, i.name, EgressFor(i.egress, uplink)), base, Demand(t.ifaces - {id}))
  {
    FullDemandFits(t, base, id);
    ShareRemoved(a, base, Demand(t.ifaces), t.ifaces[id], uplink);
  }

  /** Whatever the data, tearing interface id down leaves the others' rules exactly in place
      if and only if no other interface that is up and masquerading has its subnet and the
      egress it is torn down with: they would share one MASQUERADE rule. */
  lemma TeardownSparesOthersIff(t: Tables, a: Chains, base: Chains, id: nat, uplink: string)
    requires Integrity(t) && NatExact(t, a, base) && id in t.ifaces
    requires var i := t.ifaces[id]; BaseFree(base, i.address, i.name, EgressFor(i.egress, uplink))
    ensures var i := t.ifaces[id];
            var e := EgressFor(i.egress, uplink);
            NatBag(TornDown(a, i.address, i.name, e), base, Demand(t.ifaces - {id}))
            <==> forall j :: j in t.ifaces && j != id && Natted(t.ifaces[j]) ==> !SharesMasquerade(i, e, t.ifaces[j])
  {
    var i := t.ifaces[id];
    var e := EgressFor(i.egress, uplink);
    var after := TornDown(a, i.address, i.name, e);
    NatTornDown(a, base, Demand(t.ifaces), i.address, i.name, e);
    if j :| j in t.ifaces && j != id && Natted(t.ifaces[j]) && SharesMasquerade(i, e, t.ifaces[j]) {
      var r := SharedRule(t, id, j, e);
      assert Count(after, r) == Count(base, r);
    } else {
      LeftForOthers(t, id, uplink);
    }
  }

  /** Interface j's MASQUERADE rule is the one interface i is torn down with. */
  predicate SharesMasquerade(i: Interface, e: string, j: Interface) {
    SubnetOf(i.address) == SubnetOf(j.address) && e == j.egress
  }

  lemma SharedRule(t: Tables, id: nat, j: nat, e: string) returns (r: Rule)
    requires id in t.ifaces && j in t.ifaces && j != id && Natted(t.ifaces[j])
             && SharesMasquerade(t.ifaces[id], e, t.ifaces[j])
    ensures r in NatRules(SubnetOf(t.ifaces[id].address), t.ifaces[id].name, e)
    ensures r in Demand(t.ifaces - {id}) && !Tagged(r)
  {
    r := NatSeq(t.ifaces[j])[0];
    NatRulesUntagged(SubnetOf(t.ifaces[j].address), t.ifaces[j].name, e);
    var rest := t.ifaces - {id};
    assert j in rest && rest[j] == t.ifaces[j] && r in DemandOf(rest[j]);
  }

  lemma LeftForOthers(t: Tables, id: nat, uplink: string)
    requires Integrity(t) && id in t.ifaces && EgressesKnown(t.ifaces)
    requires forall j :: j in t.ifaces && j != id && Natted(t.ifaces[j])
               ==> !SharesMasquerade(t.ifaces[id], EgressFor(t.ifaces[id].egress, uplink), t.ifaces[j])
    ensures var i := t.ifaces[id];
            var e := EgressFor(i.egress, uplink);
            Demand(t.ifaces - {id})
            == if e == "" then Demand(t.ifaces)
               else Demand(t.ifaces) - RuleSet(NatRules(SubnetOf(i.address), i.name, e))
  {
    var i, rest := t.ifaces[id], t.ifaces - {id};
    var e := EgressFor(i.egress, uplink);
    DemandSplit(t.ifaces, id);
    TrimFixes(i.egress);
    forall r | r in Demand(rest)
      ensures r !in NatRules(SubnetOf(i.address), i.name, e)
    {
      var j :| j in rest && r in DemandOf(rest[j]);
      assert rest[j] == t.ifaces[j] && t.ifaces[j].name != i.name;
      NatRulesDisjointIff(SubnetOf(i.address), i.name, e, SubnetOf(rest[j].address), rest[j].name, rest[j].egress);
    }
  }

  /** Two interfaces with the same address and egress, and nothing else in the chains. */
  function TwoOnOneSubnet(): Tables {
    var row := Interface("wg0", "", 51820, Cidr([10, 8, 0, 1], 24), 1420, true, true, "eth0", false);
    Tables(map[1 := row, 2 := row.(name := "wg1", listenPort := 51821)], map[], map[], 3)
  }

  lemma TwoOnOneSubnetIsSound()
    ensures Integrity(TwoOnOneSubnet()) && Trim("eth0") == "eth0"
    ensures Natted(TwoOnOneSubnet().ifaces[1]) && Natted(TwoOnOneSubnet().ifaces[2])
  {
    var t := TwoOnOneSubnet();
    assert t.ifaces[1].name[2] != t.ifaces[2].name[2];
    TrimFixes("eth0");
  }

  /** The chains after both have been set up, one after the other. */
  function SetUpBoth(i: Interface, j: Interface): Chains {
    InstallAll(InstallAll(Chains([], [], []), NatSeq(i), false), NatSeq(j), false)
  }

  lemma DemandOfTwo(i: Interface, j: Interface)
    requires Natted(i) && Natted(j)
    ensures Demand(map[1 := i, 2 := j]) == RuleSet(NatSeq(i)) + RuleSet(NatSeq(j))
    ensures NatBag(SetUpBoth(i, j), Chains([], [], []), Demand(map[1 := i, 2 := j]))
  {
    hide NatRules;
    var none := Chains([], [], []);
    var m: map<nat, Interface> := map[1 := i, 2 := j];
    DemandSplit(m, 1);
    assert m - {1} == map[2 := j];
    DemandSplit(m - {1}, 2);
    assert m - {1} - {2} == map[] && Demand(map[]) == {};
    NatInstalled(none, none, {}, i.address, i.name, i.egress);
    NatInstalled(InstallAll(none, NatSeq(i), false), none, {} + RuleSet(NatSeq(i)), j.address, j.name, j.egress);
    assert {} + RuleSet(NatSeq(i)) + RuleSet(NatSeq(j)) == Demand(m);
  }

  /** Tearing wg0 down takes away the MASQUERADE rule that wg1 demands. */
  lemma MasqueradeLost()
    ensures var t := TwoOnOneSubnet();
            var ch := SetUpBoth(t.ifaces[1], t.ifaces[2]);
            var rule := NatSeq(t.ifaces[2])[0];
            && Integrity(t) && NatExact(t, ch, Chains([], [], []))
            && rule in DemandOf(t.ifaces[2]) && Count(ch, rule) == 1
            && Count(TornDown(ch, t.ifaces[1].address, "wg0", EgressFor("eth0", "eth0")), rule) == 0
  {
    var t := TwoOnOneSubnet();
    var i, j := t.ifaces[1], t.ifaces[2];
    TwoOnOneSubnetIsSound();
    DemandOfTwo(i, j);
    SharedRuleGoes(i, j);
    assert t.ifaces == map[1 := i, 2 := j];
    hide *;
  }

  lemma SharedRuleGoes(i: Interface, j: Interface)
    requires Natted(i) && Natted(j) && SharesMasquerade(i, i.egress, j) && Trim(i.egress) == i.egress != ""
    requires NatBag(SetUpBoth(i, j), Chains([], [], []), Demand(map[1 := i, 2 := j]))
    requires Demand(map[1 := i, 2 := j]) == RuleSet(NatSeq(i)) + RuleSet(NatSeq(j))
    ensures var rule := NatSeq(j)[0];
            rule in DemandOf(j) && Count(SetUpBoth(i, j), rule) == 1
            && Count(TornDown(SetUpBoth(i, j), i.address, i.name, EgressFor(i.egress, i.egress)), rule) == 0
  {
    var rule := NatSeq(j)[0];
    NatRulesUntagged(SubnetOf(j.address), j.name, j.egress);
    assert rule == NatSeq(i)[0];
    hide NatRules, Demand, SetUpBoth, SubnetOf;
    CountDropAll(SetUpBoth(i, j), NatSeq(i), rule);
  }

  /** An interface that demands nothing may change or go. */
  lemma NatWithout(a: Tables, b: Tables, ch: Chains, base: Chains, id: nat)
    requires NatBag(ch, base, Demand(a.ifaces - {id})) && EgressesKnown(a.ifaces)
    requires b.ifaces - {id} == a.ifaces - {id} && (id in b.ifaces ==> !Natted(b.ifaces[id]))
    ensures NatExact(b, ch, base)
  {
    OthersKnown(a.ifaces, b.ifaces, id);
    if id in b.ifaces {
      DemandSplit(b.ifaces, id);
      assert Demand(b.ifaces) == Demand(a.ifaces - {id});
    } else {
      assert b.ifaces - {id} == b.ifaces;
    }
  }

  lemma OthersKnown(a: map<nat, Interface>, b: map<nat, Interface>, id: nat)
    requires EgressesKnown(a) && b - {id} == a - {id}
    ensures forall i :: i in b && i != id && Natted(b[i]) ==> b[i].egress != ""
  {
    forall i | i in b && i != id
      ensures i in a && a[i] == b[i]
    {
      assert i in b - {id};
      assert (b - {id})[i] == b[i] && (a - {id})[i] == a[i];
    }
  }

  /** Reconciling an interface whose share had been taken out. */
  lemma NatAfterReconcile(t: Tables, a: Tables, b: Tables, before: Chains, after: Chains, base: Chains, id: nat)
    requires Integrity(a) && Tidy(b, base) && id in a.ifaces && EgressOnly(a, b, id)
    requires EgressesKnown(t.ifaces) && a.ifaces - {id} == t.ifaces - {id}
    requires NatBag(before, base, Demand(t.ifaces - {id}))
    requires NatStep(base, before, after, a.ifaces[id], b.ifaces[id])
    requires Natted(b.ifaces[id]) ==> b.ifaces[id].egress != ""
    ensures NatExact(b, after, base)
  {
    NatExactParts(b, after, base);
    hide Integrity, Tidy, NatBag, Natted, Fits, OwnFree, Rest, Demand;
    assert b.ifaces - {id} == a.ifaces - {id};
    TidyMoves(b, a, base);
    OthersDemandFits(a, base, id);
    OthersKnown(t.ifaces, b.ifaces, id);
    DemandSplit(b.ifaces, id);
  }

  /** Reconciling an interface whose share is the demanded one. */
  lemma NatAfterResync(a: Tables, b: Tables, before: Chains, after: Chains, base: Chains, id: nat)
    requires Integrity(a) && Tidy(b, base) && id in a.ifaces && EgressOnly(a, b, id)
    requires NatExact(a, before, base)
    requires NatStep(base, before, after, a.ifaces[id], b.ifaces[id])
    requires Natted(b.ifaces[id]) ==> b.ifaces[id].egress != ""
    ensures NatExact(b, after, base)
  {
    NatExactParts(a, before, base);
    NatExactParts(b, after, base);
    hide Integrity, Tidy, NatBag, Natted, Fits, OwnFree, Rest, Demand;
    assert b.ifaces - {id} == a.ifaces - {id};
    TidyMoves(b, a, base);
    FullDemandFits(a, base, id);
    OthersKnown(a.ifaces, b.ifaces, id);
    DemandSplit(b.ifaces, id);
  }

  /** An interface that demands nothing leaves the others' demand as the whole. */
  lemma DemandOfOthers(m: map<nat, Interface>, id: nat)
    requires id in m ==> !Natted(m[id])
    ensures Demand(m) == Demand(m - {id})
  {
    if id in m {
      DemandSplit(m, id);
    } else {
      assert m - {id} == m;
    }
  }

  lemma NatExactTags(t: Tables, a: Chains, b: Chains, base: Chains, ids: set<nat>)
    requires OnlyTags(a, b, ids)
    ensures NatExact(t, a, base) ==> NatExact(t, b, base)
  {
    if NatExact(t, a, base) {
      NatExactMoves(t, t, a, b, base);
    }
  }

  // --- The three stores together ---

  /** A new interface row: fresh, unknown to the chains, and with nothing on the host yet. */
  lemma NewInterface(t: Tables, b: Tables, devices: map<string, Device>, ch: Chains, row: Interface)
    requires Integrity(t) && !NameTaken(t, row.name) && b == AddInterface(t, StoredInterface(row))
    ensures b.ifaces - {t.nextId} == t.ifaces == t.ifaces - {t.nextId}
    ensures TagSafe(t, ch) ==> TagSafe(b, ch)
    ensures Mirror(t, devices) ==> MirrorBut(b, devices, t.nextId, row.name)
  {
    FreshId(t);
    assert b.ifaces - {t.nextId} == t.ifaces;
    assert t.ifaces - {t.nextId} == t.ifaces;
    if TagSafe(t, ch) {
      TagSafeSameForwards(t, b, ch);
    }
    if Mirror(t, devices) {
      MirrorForgetNew(t, b, devices, t.nextId, row.name);
    }
  }

  /** Neither the devices nor the NAT rules notice a change to the forwards. */
  lemma ForwardsOnly(a: Tables, b: Tables, devices: map<string, Device>, before: Chains, after: Chains, base: Chains,
                     ids: set<nat>)
    requires a.ifaces == b.ifaces && a.peers == b.peers && OnlyTags(before, after, ids)
    ensures Mirror(a, devices) ==> Mirror(b, devices)
    ensures NatExact(a, before, base) ==> NatExact(b, after, base)
  {
    if Mirror(a, devices) {
      MirrorSame(a, b, devices);
    }
    if NatExact(a, before, base) {
      NatExactMoves(a, b, before, after, base);
    }
  }
}
