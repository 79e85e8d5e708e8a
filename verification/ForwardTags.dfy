/** The tagged rules of the port forwards: which rules may be in the chains, what applying or
    removing one forward changes, and which forward a packet reaches. */
module ForwardTags {
  import opened Text
  import opened Models
  import opened Firewall
  import opened Database
  import opened KernelMirror

  // --- The rules of a forward and their tags ---

  /** The four rules the current row f stands for. */
  function ForwardRules(t: Tables, f: nat): seq<Rule>
    requires f in t.forwards && t.forwards[f].iface in t.ifaces
  {
    PfRules(f, t.forwards[f], t.ifaces[t.forwards[f].iface].name)
  }

  /** Every tagged rule in the chains is one of the four rules of its current row, once. */
  ghost predicate TagSafe(t: Tables, ch: Chains) {
    forall r: Rule, f: nat :: HasTag(r, f) && Count(ch, r) > 0 ==>
      Count(ch, r) == 1 && f in t.forwards && t.forwards[f].iface in t.ifaces && r in ForwardRules(t, f)
  }

  ghost predicate NoTag(ch: Chains, f: nat) {
    forall r: Rule :: HasTag(r, f) ==> Count(ch, r) == 0
  }

  ghost predicate SameTag(a: Chains, b: Chains, f: nat) {
    forall r: Rule :: HasTag(r, f) ==> Count(a, r) == Count(b, r)
  }

  ghost predicate SameTags(a: Chains, b: Chains) {
    forall f: nat :: SameTag(a, b, f)
  }

  ghost predicate SameUntagged(a: Chains, b: Chains) {
    forall r: Rule :: !Tagged(r) ==> Count(a, r) == Count(b, r)
  }

  /** Between a and b no rule tagged with another id than these changed in number. */
  ghost predicate OtherTags(a: Chains, b: Chains, ids: set<nat>) {
    forall f: nat :: f !in ids ==> SameTag(a, b, f)
  }

  /** Between a and b only rules tagged with one of ids changed in number. */
  ghost predicate OnlyTags(a: Chains, b: Chains, ids: set<nat>) {
    SameUntagged(a, b) && OtherTags(a, b, ids)
  }

  lemma ForeignIsUnmanaged(base: Chains)
    requires forall f: nat :: NoTag(base, f)
    ensures NothingManaged(base, base)
  {
    forall r
      ensures !Excess(base, base, r)
    {
      if Tagged(r) {
        var f: nat :| HasTag(r, f);
        assert NoTag(base, f);
      }
    }
  }

  ghost predicate NoTags(ch: Chains, ids: set<nat>) {
    forall f :: f in ids ==> NoTag(ch, f)
  }

  /** All four rules of row f are there. */
  ghost predicate FullyForwarded(t: Tables, ch: Chains, f: nat) {
    f in t.forwards && t.forwards[f].iface in t.ifaces && forall r :: r in ForwardRules(t, f) ==> Count(ch, r) == 1
  }

  ghost predicate AllForwarded(t: Tables, ch: Chains, ids: set<nat>) {
    forall f :: f in ids ==> FullyForwarded(t, ch, f)
  }

  /** From a to b at most rows of ids were dropped from the forwards, and nothing else changed. */
  predicate OnlyForwardsDropped(a: Tables, b: Tables, ids: set<nat>) {
    && b == a.(forwards := b.forwards)
    && (forall f :: f in b.forwards ==> f in a.forwards && b.forwards[f] == a.forwards[f])
    && (forall f :: f in a.forwards && f !in ids ==> f in b.forwards)
  }

  // --- Applying and removing one forward ---

  /** Removing row f's rules leaves nothing tagged f and touches nothing else. */
  lemma ForwardRemoved(t: Tables, ch: Chains, f: nat)
    requires TagSafe(t, ch) && f in t.forwards && t.forwards[f].iface in t.ifaces
    ensures var after := DropAll(ch, ForwardRules(t, f));
            TagSafe(t, after) && NoTag(after, f) && OnlyTags(ch, after, {f})
  {
    var rs := ForwardRules(t, f);
    var after := DropAll(ch, rs);
    PfRulesTagged(f, t.forwards[f], t.ifaces[t.forwards[f].iface].name);
    forall r: Rule
      ensures Count(after, r) == if HasTag(r, f) then 0 else Count(ch, r)
    {
      CountDropAll(ch, rs, r);
      assert r in rs ==> HasTag(r, f);
    }
    forall g: nat, r: Rule | g != f && HasTag(r, g)
      ensures Count(ch, r) == Count(after, r)
    {
      if HasTag(r, f) {
        TagUnique(r, f, g);
      }
    }
  }

  /** Installing any first part of row f's rules keeps the tags safe and touches nothing else. */
  lemma ForwardInstalled(t: Tables, ch: Chains, f: nat, k: nat)
    requires TagSafe(t, ch) && f in t.forwards && t.forwards[f].iface in t.ifaces && k <= 4
    ensures var after := InstallAll(ch, ForwardRules(t, f)[..k], true);
            TagSafe(t, after) && OnlyTags(ch, after, {f})
            && (k == 4 ==> FullyForwarded(t, after, f))
  {
    var rs := ForwardRules(t, f);
    var after := InstallAll(ch, rs[..k], true);
    PfRulesTagged(f, t.forwards[f], t.ifaces[t.forwards[f].iface].name);
    forall r: Rule
      ensures Count(after, r) == if r in rs[..k] && Count(ch, r) == 0 then 1 else Count(ch, r)
      ensures r in rs[..k] ==> r in rs && HasTag(r, f)
    {
      CountInstallAll(ch, rs[..k], true, r);
    }
    forall r: Rule, g: nat | HasTag(r, g) && g != f
      ensures Count(ch, r) == Count(after, r)
    {
      if r in rs[..k] {
        TagUnique(r, f, g);
      }
    }
    forall r: Rule, g: nat | HasTag(r, g) && Count(after, r) > 0
      ensures Count(after, r) == 1 && g in t.forwards && t.forwards[g].iface in t.ifaces && r in ForwardRules(t, g)
    {
      if Count(ch, r) == 0 {
        TagUnique(r, f, g);
      }
    }
    if k == 4 {
      assert rs[..k] == rs;
      forall r | r in rs
        ensures Count(after, r) == 1
      {
        assert HasTag(r, f);
      }
    }
  }

  /** What ApplyPortForward guarantees, in terms of tags. */
  lemma ForwardApplied(t: Tables, a: Chains, b: Chains, f: nat, name: string, ok: bool)
    requires TagSafe(t, a) && f in t.forwards && t.forwards[f].iface in t.ifaces
             && t.ifaces[t.forwards[f].iface].name == name
    requires exists k: nat :: k <= 4 && b == InstallAll(a, PfRules(f, t.forwards[f], name)[..k], true)
    requires ok ==> b == InstallAll(a, PfRules(f, t.forwards[f], name), true)
    ensures TagSafe(t, b) && OnlyTags(a, b, {f})
    ensures ok ==> FullyForwarded(t, b, f)
  {
    var k: nat :| k <= 4 && b == InstallAll(a, PfRules(f, t.forwards[f], name)[..k], true);
    ForwardInstalled(t, a, f, k);
    if ok {
      assert PfRules(f, t.forwards[f], name)[..4] == PfRules(f, t.forwards[f], name);
      ForwardInstalled(t, a, f, 4);
    }
  }

  /** Applying a forward whose rules are all there changes nothing. */
  lemma ForwardUnchanged(t: Tables, a: Chains, b: Chains, f: nat, name: string)
    requires FullyForwarded(t, a, f) && t.ifaces[t.forwards[f].iface].name == name
    requires exists k: nat :: k <= 4 && b == InstallAll(a, PfRules(f, t.forwards[f], name)[..k], true)
    ensures b == a
  {
    var k: nat :| k <= 4 && b == InstallAll(a, PfRules(f, t.forwards[f], name)[..k], true);
    forall r | r in PfRules(f, t.forwards[f], name)[..k]
      ensures Has(a, r)
    {
      assert r in ForwardRules(t, f);
      HasIffCounted(a, r);
    }
    InstallPresent(a, PfRules(f, t.forwards[f], name)[..k], true);
  }

  // --- Rows that change under the tags ---

  /** Rows whose tag is not in the chains may change or go, and interfaces may go once
      nothing of theirs is in the chains. */
  lemma TagSafeMoves(a: Tables, b: Tables, ch: Chains)
    requires TagSafe(a, ch)
    requires forall f :: f in a.forwards && a.forwards[f].iface in a.ifaces && !NoTag(ch, f) ==>
               f in b.forwards && b.forwards[f] == a.forwards[f]
               && a.forwards[f].iface in b.ifaces
               && b.ifaces[a.forwards[f].iface].name == a.ifaces[a.forwards[f].iface].name
    ensures TagSafe(b, ch)
  {
  }

  lemma TagSafeSameForwards(a: Tables, b: Tables, ch: Chains)
    requires TagSafe(a, ch) && a.forwards == b.forwards
    requires forall i :: i in a.ifaces ==> i in b.ifaces && b.ifaces[i].name == a.ifaces[i].name
    ensures TagSafe(b, ch)
  {
  }

  lemma TagSafeUntaggedChange(t: Tables, a: Chains, b: Chains)
    requires TagSafe(t, a) && forall f: nat :: SameTag(a, b, f)
    ensures TagSafe(t, b)
  {
    forall r: Rule, f: nat | HasTag(r, f)
      ensures Count(a, r) == Count(b, r)
    {
      assert SameTag(a, b, f);
    }
  }

  /** The tags stay safe when only untagged rules and an egress change. */
  lemma TagSafeReconciled(a: Tables, b: Tables, before: Chains, after: Chains, id: nat)
    requires TagSafe(a, before) && EgressOnly(a, b, id) && SameTags(before, after)
    ensures TagSafe(b, after)
  {
    TagSafeUntaggedChange(a, before, after);
    TagSafeSameForwards(a, b, after);
  }

  /** A forward's row may go once its rules are gone. */
  lemma DropForwardSafe(t: Tables, ch: Chains, f: nat)
    requires Integrity(t) && TagSafe(t, ch) && NoTag(ch, f)
    ensures Integrity(DropForward(t, f)) && TagSafe(DropForward(t, f), ch)
  {
    DropForwardKeeps(t, f);
    TagSafeMoves(t, DropForward(t, f), ch);
  }

  /** The interface row may go once none of its forwards has a rule left. */
  lemma TagSafeDropInterface(t: Tables, ch: Chains, id: nat)
    requires TagSafe(t, ch) && NoTags(ch, ForwardsOfInterface(t, id))
    ensures TagSafe(DropInterface(t, id), ch)
  {
    forall f | f in t.forwards && t.forwards[f].iface in t.ifaces && !NoTag(ch, f)
      ensures t.forwards[f].iface != id
    {
      assert f !in ForwardsOfInterface(t, id);
    }
    TagSafeMoves(t, DropInterface(t, id), ch);
  }

  /** A new forward has a fresh id, so no rule in the chains carries its tag. */
  lemma TagSafeAddForward(t: Tables, ch: Chains, row: PortForward)
    requires Integrity(t) && TagSafe(t, ch)
    ensures TagSafe(AddForward(t, row), ch)
  {
    FreshId(t);
    TagSafeMoves(t, AddForward(t, row), ch);
  }

  /** A forward's row may be saved once its rules are gone. */
  lemma PutForwardSafe(t: Tables, ch: Chains, f: nat, row: PortForward)
    requires Integrity(t) && TagSafe(t, ch) && NoTag(ch, f) && f in t.forwards
    requires row == t.forwards[f].(targetPort := row.targetPort, enabled := row.enabled)
    ensures Integrity(PutForward(t, f, row)) && TagSafe(PutForward(t, f, row), ch)
  {
    PutForwardKeeps(t, f, row);
    TagSafeMoves(t, PutForward(t, f, row), ch);
  }

  // --- Looking a packet up ---

  /** Row f answers this packet. */
  predicate Answers(t: Tables, f: nat, p: Packet) {
    && f in t.forwards && t.forwards[f].egress == p.inIface
    && p.proto == Some(t.forwards[f].proto) && p.dport == t.forwards[f].publicPort
  }

  predicate DnatInstalled(t: Tables, ch: Chains, f: nat) {
    f in t.forwards && t.forwards[f].iface in t.ifaces && ForwardRules(t, f)[0] in ch.prerouting
  }

  /** Packets: the first managed rule of PREROUTING that matches is of the forward the database
      stores for that ingress, protocol and port, and any reordering of the chain finds the
      same one. */
  lemma LookupAgrees(t: Tables, ch: Chains, chain: seq<Rule>, p: Packet)
    requires Integrity(t) && TagSafe(t, ch) && WellPlaced(ch)
    requires multiset(chain) == multiset(ch.prerouting)
    ensures var hit := FirstManaged(chain, p);
            && (hit.Some? <==> exists f :: Answers(t, f, p) && DnatInstalled(t, ch, f))
            && (forall f :: hit.Some? && Answers(t, f, p)
                  ==> hit.value == Dnat(t.forwards[f].targetIp, t.forwards[f].targetPort))
  {
    var hit := FirstManaged(chain, p);
    SameMembers(chain, ch.prerouting);
    if hit.Some? {
      var f := HitIsRow(t, ch, chain, p);
      forall g | Answers(t, g, p)
        ensures g == f
      {
        assert SamePort(t.forwards[f], t.forwards[g]);
      }
    }
    if f :| Answers(t, f, p) && DnatInstalled(t, ch, f) {
      RowIsHit(t, ch, chain, f, p);
    }
  }

  lemma SameMembers(a: seq<Rule>, b: seq<Rule>)
    requires multiset(a) == multiset(b)
    ensures forall r :: r in a <==> r in b
  {
    forall r
      ensures r in a <==> r in b
    {
      assert r in a <==> r in multiset(a);
      assert r in b <==> r in multiset(b);
    }
  }

  lemma HitIsRow(t: Tables, ch: Chains, chain: seq<Rule>, p: Packet) returns (f: nat)
    requires TagSafe(t, ch) && WellPlaced(ch) && forall r :: r in chain ==> r in ch.prerouting
    requires FirstManaged(chain, p).Some?
    ensures Answers(t, f, p) && DnatInstalled(t, ch, f)
    ensures FirstManaged(chain, p).value == Dnat(t.forwards[f].targetIp, t.forwards[f].targetPort)
  {
    FirstManagedIs(chain, p);
    var hit := FirstManaged(chain, p);
    var r :| r in chain && Tagged(r) && Matches(r, p) && r.target == hit.value;
    f := OwnerOfDnat(t, ch, r);
  }

  lemma RowIsHit(t: Tables, ch: Chains, chain: seq<Rule>, f: nat, p: Packet)
    requires forall r :: r in ch.prerouting ==> r in chain
    requires Answers(t, f, p) && DnatInstalled(t, ch, f)
    ensures FirstManaged(chain, p).Some?
  {
    FirstManagedIs(chain, p);
    var r := ForwardRules(t, f)[0];
    assert HasTag(r, f) && Matches(r, p) && r in chain;
  }

  /** A managed DNAT rule in PREROUTING is the first rule of its row. */
  lemma OwnerOfDnat(t: Tables, ch: Chains, r: Rule) returns (f: nat)
    requires TagSafe(t, ch) && WellPlaced(ch) && r in ch.prerouting && Tagged(r)
    ensures f in t.forwards && t.forwards[f].iface in t.ifaces && r == ForwardRules(t, f)[0]
  {
    f :| HasTag(r, f);
    assert r in ch.Get(Prerouting);
    assert Has(ch, r);
    HasIffCounted(ch, r);
    assert r in ForwardRules(t, f);
  }

  // --- The forwards of a peer or an interface ---

  /** The forwards of a peer, or of an interface, run on that interface's device. */
  predicate ForwardsOn(t: Tables, ids: set<nat>, name: string) {
    forall f :: f in ids ==>
      f in t.forwards && t.forwards[f].iface in t.ifaces && t.ifaces[t.forwards[f].iface].name == name
  }

  function ForwardsOfPeer(t: Tables, p: nat): set<nat> {
    set f | f in t.forwards && t.forwards[f].peer == p
  }

  function ForwardsOfInterface(t: Tables, id: nat): set<nat> {
    set f | f in t.forwards && t.forwards[f].iface == id
  }

  function EnabledForwards(t: Tables, ids: set<nat>): set<nat> {
    set f | f in ids && f in t.forwards && t.forwards[f].enabled
  }

  lemma PeerForwardsOn(t: Tables, p: nat)
    requires Integrity(t) && p in t.peers
    ensures ForwardsOn(t, ForwardsOfPeer(t, p), t.ifaces[t.peers[p].iface].name)
  {
  }

  lemma OnlyTagsGrow(a: Chains, b: Chains, c: Chains, ids: set<nat>, f: nat)
    requires OnlyTags(a, b, ids) && OnlyTags(b, c, {f}) && f in ids
    ensures OnlyTags(a, c, ids)
  {
    forall g: nat, r: Rule | g !in ids && HasTag(r, g)
      ensures Count(a, r) == Count(c, r)
    {
      assert SameTag(a, b, g) && SameTag(b, c, g);
    }
  }

  lemma NoTagsGrow(a: Chains, b: Chains, done: set<nat>, f: nat)
    requires NoTags(a, done) && OnlyTags(a, b, {f}) && NoTag(b, f)
    ensures NoTags(b, done + {f})
  {
    forall g | g in done + {f}
      ensures NoTag(b, g)
    {
      if g != f {
        assert SameTag(a, b, g);
      }
    }
  }

  lemma AllForwardedGrow(t: Tables, a: Chains, b: Chains, done: set<nat>, f: nat)
    requires AllForwarded(t, a, done) && OnlyTags(a, b, {f}) && FullyForwarded(t, b, f)
    ensures AllForwarded(t, b, done + {f})
  {
    forall g | g in done + {f}
      ensures FullyForwarded(t, b, g)
    {
      if g != f {
        assert SameTag(a, b, g);
        PfRulesTagged(g, t.forwards[g], t.ifaces[t.forwards[g].iface].name);
      }
    }
  }

  // --- Sets of tags ---

  lemma NoTagsSame(a: Chains, b: Chains, ids: set<nat>)
    requires SameTags(a, b) && NoTags(a, ids)
    ensures NoTags(b, ids)
  {
    forall f | f in ids
      ensures NoTag(b, f)
    {
      assert SameTag(a, b, f);
    }
  }

  lemma OnlyTagsSelf(a: Chains, ids: set<nat>)
    ensures OnlyTags(a, a, ids)
  {
  }

  lemma OnlyTagsMore(a: Chains, b: Chains, ids: set<nat>, more: set<nat>)
    requires OnlyTags(a, b, ids) && ids <= more
    ensures OnlyTags(a, b, more)
  {
  }

  lemma OnlyTagsUntagged(a: Chains, b: Chains, ids: set<nat>)
    requires OnlyTags(a, b, ids)
    ensures SameUntagged(a, b)
  {
  }

  lemma SameTagsGrow(a: Chains, b: Chains, c: Chains)
    requires SameTags(a, b) && SameTags(b, c)
    ensures SameTags(a, c)
  {
    forall f: nat
      ensures SameTag(a, c, f)
    {
      assert SameTag(a, b, f) && SameTag(b, c, f);
    }
  }

  lemma OnlyTagsOthers(a: Chains, b: Chains, ids: set<nat>)
    requires OnlyTags(a, b, ids) || SameTags(a, b)
    ensures OtherTags(a, b, ids)
  {
  }

  lemma SameTagsSelf(a: Chains)
    ensures SameTags(a, a)
  {
  }

  lemma OtherTagsSelf(a: Chains, ids: set<nat>)
    ensures OtherTags(a, a, ids)
  {
  }

  lemma OtherTagsJoin(a: Chains, b: Chains, c: Chains, ids: set<nat>)
    requires OtherTags(a, b, ids) && OtherTags(b, c, ids)
    ensures OtherTags(a, c, ids)
  {
    forall f: nat | f !in ids
      ensures SameTag(a, c, f)
    {
      assert SameTag(a, b, f) && SameTag(b, c, f);
    }
  }

  /** The tagged rules of ids go, and then only untagged rules change. */
  lemma StrippedTags(a: Chains, b: Chains, c: Chains, ids: set<nat>)
    requires OnlyTags(a, b, ids) && NoTags(b, ids) && SameTags(b, c)
    ensures NoTags(c, ids) && OtherTags(a, c, ids)
  {
    NoTagsSame(b, c, ids);
    OnlyTagsOthers(a, b, ids);
    OnlyTagsOthers(b, c, ids);
    OtherTagsJoin(a, b, c, ids);
  }

  lemma NoTagsFewer(ch: Chains, ids: set<nat>, fewer: set<nat>)
    requires NoTags(ch, ids) && fewer <= ids
    ensures NoTags(ch, fewer)
  {
  }
}
