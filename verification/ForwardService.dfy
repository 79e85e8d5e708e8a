/** What an enabled port forward of a live peer on a live enabled interface is promised: all four
    of its rules; and how each change to the rows, with the rules that change along with it,
    keeps the promise. */
module ForwardService {
  import opened Text
  import opened Models
  import opened Firewall
  import opened Database
  import opened KernelMirror
  import opened ForwardTags
  import opened Boot

  predicate Promised(t: Tables, f: nat) {
    && f in t.forwards && t.forwards[f].enabled
    && t.forwards[f].peer in t.peers && !t.peers[t.forwards[f].peer].trashed
    && t.forwards[f].iface in t.ifaces && Up(t.ifaces[t.forwards[f].iface])
  }

  ghost predicate ForwardsServed(t: Tables, ch: Chains) {
    forall f: nat :: Promised(t, f) ==> FullyForwarded(t, ch, f)
  }

  /** Row f and its device's name are the same in both. */
  predicate SamePath(a: Tables, b: Tables, f: nat) {
    && f in a.forwards && f in b.forwards && a.forwards[f] == b.forwards[f]
    && a.forwards[f].iface in a.ifaces && a.forwards[f].iface in b.ifaces
    && a.ifaces[a.forwards[f].iface].name == b.ifaces[a.forwards[f].iface].name
  }

  /** Outside ids, nothing is promised in b that was not promised in a. */
  ghost predicate NoNewPromise(a: Tables, b: Tables, ids: set<nat>) {
    forall f: nat :: f !in ids && Promised(b, f) ==> Promised(a, f) && SamePath(a, b, f)
  }

  lemma FullyForwardedMoves(a: Tables, b: Tables, before: Chains, after: Chains, f: nat)
    requires FullyForwarded(a, before, f) && SamePath(a, b, f) && SameTag(before, after, f)
    ensures FullyForwarded(b, after, f)
  {
    PfRulesTagged(f, a.forwards[f], a.ifaces[a.forwards[f].iface].name);
    forall r | r in ForwardRules(b, f)
      ensures Count(after, r) == 1
    {
      assert r in ForwardRules(a, f) && HasTag(r, f);
    }
  }

  /** The promise is kept if the others' rules stay and those of ids are there where promised. */
  lemma ServedMoves(a: Tables, b: Tables, before: Chains, after: Chains, ids: set<nat>)
    requires ForwardsServed(a, before) && NoNewPromise(a, b, ids) && OtherTags(before, after, ids)
    requires forall f: nat :: f in ids && Promised(b, f) ==> FullyForwarded(b, after, f)
    ensures ForwardsServed(b, after)
  {
    hide Promised, FullyForwarded, SamePath, SameTag;
    forall f: nat | Promised(b, f)
      ensures FullyForwarded(b, after, f)
    {
      if f !in ids {
        FullyForwardedMoves(a, b, before, after, f);
      }
    }
  }

  /** A change that promises nothing new and leaves the tagged rules alone. */
  lemma ServedStays(a: Tables, b: Tables, before: Chains, after: Chains)
    requires ForwardsServed(a, before) && NoNewPromise(a, b, {}) && SameTags(before, after)
    ensures ForwardsServed(b, after)
  {
    OnlyTagsOthers(before, after, {});
    ServedMoves(a, b, before, after, {});
  }

  // --- Rows ---

  ghost predicate SameBut<V>(m: map<nat, V>, n: map<nat, V>, k: nat) {
    forall q: nat :: q != k ==> (q in m <==> q in n) && (q in m ==> m[q] == n[q])
  }

  predicate ForwardsWithin(a: Tables, b: Tables) {
    forall f :: f in b.forwards ==> f in a.forwards && b.forwards[f] == a.forwards[f]
  }

  lemma NewPeerPromisesNothing(t: Tables, row: Peer)
    requires Integrity(t)
    ensures NoNewPromise(t, AddPeer(t, row), {})
  {
  }

  lemma NewInterfacePromisesNothing(t: Tables, row: Interface)
    requires Integrity(t)
    ensures NoNewPromise(t, AddInterface(t, row), {})
  {
  }

  /** A peer row that is saved with its trashed flag as it was, or not saved. */
  lemma ServedAfterSaving(a: Tables, b: Tables, ch: Chains, p: nat)
    requires ForwardsServed(a, ch)
    requires b == a || (p in a.peers && p in b.peers && b == PutPeer(a, p, b.peers[p])
             && b.peers[p].trashed == a.peers[p].trashed)
    ensures ForwardsServed(b, ch)
  {
    ServedStays(a, b, ch, ch);
  }

  lemma ServedAfterNewPeer(a: Tables, b: Tables, ch: Chains)
    requires Integrity(a) && ForwardsServed(a, ch)
    requires b == a || exists row: Peer :: b == AddPeer(a, row)
    ensures ForwardsServed(b, ch)
  {
    if b != a {
      var row: Peer :| b == AddPeer(a, row);
      NewPeerPromisesNothing(a, row);
    }
    ServedStays(a, b, ch, ch);
  }

  lemma EgressPromisesNothing(a: Tables, b: Tables, id: nat)
    requires EgressOnly(a, b, id)
    ensures NoNewPromise(a, b, {})
  {
  }

  /** A change to peer p alone, and to its forwards' rules. */
  lemma ServedAfterPeer(a: Tables, b: Tables, before: Chains, after: Chains, p: nat)
    requires ForwardsServed(a, before) && OtherTags(before, after, ForwardsOfPeer(a, p))
    requires b.ifaces == a.ifaces && ForwardsWithin(a, b) && SameBut(a.peers, b.peers, p)
    requires forall f :: f in ForwardsOfPeer(b, p) && Promised(b, f) ==> FullyForwarded(b, after, f)
    ensures ForwardsServed(b, after)
  {
    ServedMoves(a, b, before, after, ForwardsOfPeer(a, p));
  }

  lemma ServedAfterTrashing(a: Tables, b: Tables, before: Chains, after: Chains, p: nat)
    requires ForwardsServed(a, before) && OnlyTags(before, after, ForwardsOfPeer(a, p))
    requires if p in a.peers && !a.peers[p].trashed then b == PutPeer(a, p, a.peers[p].(trashed := true)) else b == a
    ensures ForwardsServed(b, after)
  {
    OnlyTagsOthers(before, after, ForwardsOfPeer(a, p));
    ServedAfterPeer(a, b, before, after, p);
  }

  lemma ServedAfterRestoring(a: Tables, b: Tables, before: Chains, after: Chains, p: nat)
    requires ForwardsServed(a, before) && OnlyTags(before, after, ForwardsOfPeer(a, p))
    requires p in a.peers && b == PutPeer(a, p, a.peers[p].(trashed := false))
    requires AllForwarded(b, after, EnabledForwards(b, ForwardsOfPeer(b, p)))
    ensures ForwardsServed(b, after)
  {
    OnlyTagsOthers(before, after, ForwardsOfPeer(a, p));
    AllEnabledServe(b, after, ForwardsOfPeer(b, p));
    ServedAfterPeer(a, b, before, after, p);
  }

  lemma ServedAfterPurging(a: Tables, b: Tables, before: Chains, after: Chains, p: nat)
    requires ForwardsServed(a, before) && OnlyTags(before, after, ForwardsOfPeer(a, p))
    requires b.peers == a.peers - {p} && OnlyForwardsDropped(a.(peers := b.peers), b, ForwardsOfPeer(a, p))
    ensures ForwardsServed(b, after)
  {
    OnlyTagsOthers(before, after, ForwardsOfPeer(a, p));
    ServedAfterPeer(a, b, before, after, p);
  }

  /** A change to interface id and its peers alone, and to its forwards' rules. */
  lemma ServedAfterInterface(a: Tables, b: Tables, before: Chains, after: Chains, id: nat)
    requires Integrity(b) && ForwardsServed(a, before) && OtherTags(before, after, ForwardsOfInterface(a, id))
    requires SameElsewhere(a, b, id) && ForwardsWithin(a, b)
    requires forall f :: f in ForwardsOfInterface(b, id) && Promised(b, f) ==> FullyForwarded(b, after, f)
    ensures ForwardsServed(b, after)
  {
    forall f: nat | f !in ForwardsOfInterface(a, id) && Promised(b, f)
      ensures Promised(a, f) && SamePath(a, b, f)
    {
      SameElsewhereRow(a, b, id, b.forwards[f].iface);
    }
    ServedMoves(a, b, before, after, ForwardsOfInterface(a, id));
  }

  /** The interface is not up, so its forwards are promised nothing. */
  lemma NothingPromisedOn(t: Tables, ch: Chains, id: nat)
    requires id in t.ifaces ==> !Up(t.ifaces[id])
    ensures forall f :: f in ForwardsOfInterface(t, id) && Promised(t, f) ==> FullyForwarded(t, ch, f)
  {
  }

  lemma AllEnabledServe(t: Tables, ch: Chains, ids: set<nat>)
    requires AllForwarded(t, ch, EnabledForwards(t, ids))
    ensures forall f :: f in ids && Promised(t, f) ==> FullyForwarded(t, ch, f)
  {
  }

  lemma ElsewhereAndEgress(a: Tables, b: Tables, c: Tables, id: nat)
    requires SameElsewhere(a, b, id) && EgressOnly(b, c, id)
    ensures SameElsewhere(a, c, id)
  {
    assert c.ifaces - {id} == b.ifaces - {id};
  }

  lemma ServedAfterNewInterface(a: Tables, b: Tables, before: Chains, after: Chains)
    requires Integrity(a) && ForwardsServed(a, before) && SameTags(before, after)
    requires b == a || exists row: Interface :: b == AddInterface(a, row)
    ensures ForwardsServed(b, after)
  {
    if b != a {
      var row: Interface :| b == AddInterface(a, row);
      NewInterfacePromisesNothing(a, row);
    }
    ServedStays(a, b, before, after);
  }

  lemma ServedAfterResync(a: Tables, b: Tables, before: Chains, after: Chains, id: nat)
    requires ForwardsServed(a, before) && SameTags(before, after) && EgressOnly(a, b, id)
    ensures ForwardsServed(b, after)
  {
    EgressPromisesNothing(a, b, id);
    ServedStays(a, b, before, after);
  }

  /** The interface's row is saved and settled, its forwards with it. */
  lemma ServedAfterSettling(a: Tables, m: Tables, b: Tables, before: Chains, after: Chains, id: nat)
    requires Integrity(b) && ForwardsServed(a, before) && OtherTags(before, after, ForwardsOfInterface(a, id))
    requires SameElsewhere(a, m, id) && m.forwards == a.forwards && EgressOnly(m, b, id) && id in b.ifaces
    requires b.ifaces[id].enabled ==> AllForwarded(b, after, EnabledForwards(b, ForwardsOfInterface(b, id)))
    ensures ForwardsServed(b, after)
  {
    ElsewhereAndEgress(a, m, b, id);
    if b.ifaces[id].enabled {
      AllEnabledServe(b, after, ForwardsOfInterface(b, id));
    } else {
      NothingPromisedOn(b, after, id);
    }
    ServedAfterInterface(a, b, before, after, id);
  }

  /** The interface is trashed or gone. */
  lemma ServedWithout(a: Tables, u: Tables, b: Tables, before: Chains, after: Chains, id: nat)
    requires Integrity(b) && ForwardsServed(a, before) && OtherTags(before, after, ForwardsOfInterface(a, id))
    requires OnlyForwardsDropped(a, u, ForwardsOfInterface(a, id)) && SameElsewhere(u, b, id)
             && b.forwards == u.forwards
    requires id in b.ifaces ==> b.ifaces[id].trashed
    ensures ForwardsServed(b, after)
  {
    NothingPromisedOn(b, after, id);
    ServedAfterInterface(a, b, before, after, id);
  }

  /** A change to forward f alone, and to its rules. */
  lemma ServedAfterForward(a: Tables, b: Tables, before: Chains, after: Chains, f: nat)
    requires ForwardsServed(a, before) && OtherTags(before, after, {f})
    requires b.ifaces == a.ifaces && b.peers == a.peers && SameBut(a.forwards, b.forwards, f)
    requires Promised(b, f) ==> FullyForwarded(b, after, f)
    ensures ForwardsServed(b, after)
  {
    ServedMoves(a, b, before, after, {f});
  }

  /** Forward f is saved or dropped; what stays as it was is not promised anything. */
  lemma ServedAfterChange(a: Tables, b: Tables, before: Chains, after: Chains, f: nat)
    requires ForwardsServed(a, before) && OnlyTags(before, after, {f})
    requires b.ifaces == a.ifaces && b.peers == a.peers && SameBut(a.forwards, b.forwards, f)
    requires f in b.forwards
             ==> b.forwards[f].iface !in b.ifaces || !b.forwards[f].enabled || FullyForwarded(b, after, f)
    ensures ForwardsServed(b, after)
  {
    OnlyTagsOthers(before, after, {f});
    ServedAfterForward(a, b, before, after, f);
  }

  /** What a start installs covers every promise. */
  lemma DueCoversPromised(t: Tables, ch: Chains)
    requires AllForwarded(t, ch, DueForwards(t))
    ensures ForwardsServed(t, ch)
  {
  }
}
