/** What the operations on a view mean for the slots of each node: who gains, who loses, who is left alone. */
module SlotMoves {
  import opened Names
  import opened ClusterView

  lemma MovedSlots(t: Table, from: Name, to: Option<Name>)
    requires to != Some(from)
    ensures SlotsOf(Moved(t, from, to), from) == {}
    ensures to.Some? ==> SlotsOf(Moved(t, from, to), to.value) == SlotsOf(t, to.value) + SlotsOf(t, from)
    ensures forall n | n != from && to != Some(n) :: SlotsOf(Moved(t, from, to), n) == SlotsOf(t, n)
  {
    var u := Moved(t, from, to);
    if to.Some? { assert SlotsOf(u, to.value) == SlotsOf(t, to.value) + SlotsOf(t, from); }
    forall n | n != from && to != Some(n) ensures SlotsOf(u, n) == SlotsOf(t, n) {
      assert forall j :: j in SlotsOf(u, n) <==> j in SlotsOf(t, n);
    }
  }

  /** A node that announces itself as a slave holds no slot afterwards; one that announces itself as a master keeps its own. */
  lemma AnnouncedRole(v: View, h: Header)
    requires h.sender in v.nodes
    ensures var w := TakeRole(v, h);
            && (h.slaveOf.None? ==> IsMaster(w, h.sender) && w.table == v.table)
            && (h.slaveOf.Some? ==> !IsMaster(w, h.sender))
            && (h.slaveOf.Some? && h.slaveOf.value in v.nodes ==> MasterOf(w, h.sender) == h.slaveOf)
            && (h.slaveOf.Some? && IsMaster(v, h.sender) ==> SlotsOf(w.table, h.sender) == {})
            && (forall n | n != h.sender :: SlotsOf(w.table, n) == SlotsOf(v.table, n))
            && (forall n | n in v.nodes && n != h.sender :: n in w.nodes && w.nodes[n] == v.nodes[n])
  {
    MovedSlots(v.table, h.sender, None);
  }

  /** A claim never leaves a slot without a holder, and takes only slots that are claimed. */
  lemma ClaimsTakeOnlyClaimed(v: View, claimant: Name, epoch: nat, claimed: set<nat>)
    ensures var w := UpdateSlots(v, claimant, epoch, claimed);
            && |w.table| == |v.table|
            && (forall j | 0 <= j < |v.table| && v.table[j].Some? :: w.table[j].Some?)
            && (forall j | 0 <= j < |v.table| && w.table[j] != v.table[j] ::
                  j in claimed && w.table[j] == Some(claimant)
                  && (v.table[j].Some? ==> EpochOf(v, v.table[j].value) < epoch))
            && (claimant == v.me ==> w == v)
  {
  }

  /** Slots handed over in full are the receiver's and nobody else's; the others stay where they were. */
  lemma HandedSlots(v: View, n: Name, slots: set<nat>)
    requires forall j | j in slots :: j < |v.table| && v.table[j].Some?
    ensures var w := SetSlots(v, n, slots);
            && SlotsOf(w.table, n) == SlotsOf(v.table, n) + slots
            && (forall m | m != n :: SlotsOf(w.table, m) == SlotsOf(v.table, m) - slots)
            && (n == v.me && v.me in v.nodes && NeedsBump(v) ==> EpochOf(w, v.me) == v.currentEpoch + 1)
  {
    var stop := FirstFree(v.table, slots, 0);
    assert stop == |v.table|;
    assert (set j | j in slots && j < stop) == slots;
    var t := Assigned(v.table, Some(n), slots);
    assert SlotsOf(t, n) == SlotsOf(v.table, n) + slots;
    forall m | m != n ensures SlotsOf(t, m) == SlotsOf(v.table, m) - slots {
      assert forall j :: j in SlotsOf(t, m) <==> j in SlotsOf(v.table, m) && j !in slots;
    }
  }

  /** If some slot is unassigned, exactly the slots before the first such one change hands, and no epoch is bumped. */
  lemma HandedUpToFree(v: View, n: Name, slots: set<nat>)
    requires exists j | 0 <= j < |v.table| :: j in slots && v.table[j].None?
    ensures var w, stop := SetSlots(v, n, slots), FirstFree(v.table, slots, 0);
            && stop < |v.table| && v.table[stop].None? && w.table[stop].None?
            && (forall j | 0 <= j < |v.table| :: w.table[j] == if j in slots && j < stop then Some(n) else v.table[j])
            && w.nodes == v.nodes && w.currentEpoch == v.currentEpoch
  {
    var j :| 0 <= j < |v.table| && j in slots && v.table[j].None?;
    assert FirstFree(v.table, slots, 0) <= j;
  }
}
