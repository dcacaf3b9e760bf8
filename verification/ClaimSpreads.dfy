/**
 The hand-over in terms of the two nodes' tables: the destination's claim is its `setSlots`, gossip is a ping of
 its, and the source gives the slots away exactly if the claim comes with a greater epoch than their holder's.
 */
module ClaimSpreads {
  import opened Names
  import opened ClusterView
  import opened EpochBound
  import opened SlotMoves
  import HandOver

  /** The ownership in the hand-over protocol is what the two tables say. */
  ghost predicate Stands(s: HandOver.State, src: View, dst: View)
  {
    && s.srcOwns == s.slots * SlotsOf(src.table, src.me)
    && s.dstOwns == s.slots * SlotsOf(dst.table, dst.me)
  }

  lemma RepairKeepsTable(v: View, other: Name)
    ensures Repair(v, other).table == v.table
  {
  }

  /** By another node's ping a node loses only slots that the ping claims, and gains none. */
  lemma PingTakesOnlyClaimed(v: View, h: Header)
    requires h.sender != v.me
    ensures var w := HandlePing(v, h);
            && SlotsOf(w.table, v.me) <= SlotsOf(v.table, v.me)
            && SlotsOf(v.table, v.me) - SlotsOf(w.table, v.me) <= h.slots
  {
    if h.sender in v.nodes {
      var u := TakeRole(SeeHeader(v, h), h);
      AnnouncedRole(SeeHeader(v, h), h);
      var w := TakeSlots(u, h);
      ClaimsTakeOnlyClaimed(u, h.sender, h.configEpoch, h.slots);
      RepairKeepsTable(w, h.sender);
      assert SlotsOf(u.table, v.me) == SlotsOf(v.table, v.me);
    }
  }

  /** A ping of the destination, however old, is a gossip step of the protocol. */
  lemma GossipIsAPing(s: HandOver.State, src: View, dst: View, h: Header) returns (st: HandOver.Step)
    requires Stands(s, src, dst) && h.sender == dst.me && dst.me != src.me && s.slots * h.slots <= s.dstOwns
    ensures st.Gossip? && Stands(HandOver.Apply(s, st), HandlePing(src, h), dst)
  {
    var w := HandlePing(src, h);
    PingTakesOnlyClaimed(src, h);
    st := HandOver.Gossip(s.srcOwns - SlotsOf(w.table, src.me));
    PingKeepsMe(src, h);
  }

  lemma PingKeepsMe(v: View, h: Header)
    ensures HandlePing(v, h).me == v.me
  {
  }

  /**
   Executing the end message is a claim step. It is accepted exactly if the destination knows a holder of every
   slot; a refused one takes the slots before the first without a holder, and comes with no new epoch.
   */
  lemma ClaimIsSetSlots(s: HandOver.State, src: View, dst: View) returns (st: HandOver.Step)
    requires Stands(s, src, dst) && s.ending && forall j | j in s.slots :: j < |dst.table|
    ensures st.Claim? && Stands(HandOver.Apply(s, st), src, SetSlots(dst, dst.me, s.slots))
    ensures HandOver.Apply(s, st).accepted <==> forall j | j in s.slots :: dst.table[j].Some?
    ensures !HandOver.Apply(s, st).accepted ==>
              var d := SetSlots(dst, dst.me, s.slots); d.nodes == dst.nodes && d.currentEpoch == dst.currentEpoch
  {
    var stop := FirstFree(dst.table, s.slots, 0);
    var taken := set j | j in s.slots && j < stop;
    st := HandOver.Claim(taken);
    var t := Assigned(dst.table, Some(dst.me), taken);
    assert s.slots * SlotsOf(t, dst.me) == s.dstOwns + taken;
    if stop < |dst.table| {
      assert stop in s.slots && stop !in taken;
      HandedUpToFree(dst, dst.me, s.slots);
    } else { assert taken == s.slots; }
  }

  // ---------------------------------------------------------------- whether the source gives way

  lemma ClaimHeader(dst: View, slots: set<nat>, j: nat)
    requires IsMaster(dst, dst.me) && j in slots && forall i | i in slots :: i < |dst.table| && dst.table[i].Some?
    ensures var d := SetSlots(dst, dst.me, slots);
            var h := MakeHeader(d);
            && h.sender == dst.me && h.slaveOf.None? && h.configEpoch == EpochOf(d, dst.me)
            && h.slots == SlotsOf(dst.table, dst.me) + slots
  {
    HandedSlots(dst, dst.me, slots);
  }

  lemma PingRebinds(src: View, h: Header, j: nat, holder: Name)
    requires h.sender in src.nodes && h.sender != src.me && h.slaveOf.None? && j in h.slots
    requires j < |src.table| && src.table[j] == Some(holder) && holder != h.sender
    ensures var w := HandlePing(src, h);
            |w.table| == |src.table| && (w.table[j] == Some(h.sender) <==> EpochOf(src, holder) < h.configEpoch)
  {
    var u := TakeRole(SeeHeader(src, h), h);
    assert u.table == src.table && IsMaster(u, h.sender) && u.me == src.me;
    assert EpochOf(u, holder) == EpochOf(src, holder);
    assert j !in SlotsOf(u.table, h.sender);
    assert Dirty(u, h);
    RepairKeepsTable(TakeSlots(u, h), h.sender);
  }

  /** The first ping after the claim moves a slot in the source's table exactly if its holder's epoch is smaller. */
  lemma ClaimIsAccepted(dst: View, src: View, slots: set<nat>, j: nat, holder: Name)
    requires IsMaster(dst, dst.me) && dst.me in src.nodes && dst.me != src.me
    requires j in slots && forall i | i in slots :: i < |dst.table| && dst.table[i].Some?
    requires j < |src.table| && src.table[j] == Some(holder) && holder != dst.me
    ensures var d := SetSlots(dst, dst.me, slots);
            var w := HandlePing(src, MakeHeader(d));
            |w.table| == |src.table| && (w.table[j] == Some(dst.me) <==> EpochOf(src, holder) < EpochOf(d, dst.me))
  {
    ClaimHeader(dst, slots, j);
    PingRebinds(src, MakeHeader(SetSlots(dst, dst.me, slots)), j, holder);
  }

  lemma ClaimEpoch(dst: View, slots: set<nat>)
    requires BoundedView(dst) && dst.me in dst.nodes
    requires forall i | i in slots :: i < |dst.table| && dst.table[i].Some?
    ensures EpochOf(SetSlots(dst, dst.me, slots), dst.me)
            == if NeedsBump(dst) then dst.currentEpoch + 1 else dst.currentEpoch
  {
    HandedSlots(dst, dst.me, slots);
    assert FirstFree(dst.table, slots, 0) == |dst.table|;
  }

  /**
   If the destination has heard of the holder's epoch, the claim is accepted exactly if the destination had to bump
   its own for it or was ahead already: not if its own was the greatest it knew and the holder has the same.
   */
  lemma HeardClaimIsAccepted(dst: View, src: View, slots: set<nat>, j: nat, holder: Name)
    requires IsMaster(dst, dst.me) && dst.me in src.nodes && dst.me != src.me && BoundedView(dst)
    requires j in slots && forall i | i in slots :: i < |dst.table| && dst.table[i].Some?
    requires j < |src.table| && src.table[j] == Some(holder) && holder != dst.me
    requires EpochOf(src, holder) <= dst.currentEpoch
    ensures var w := HandlePing(src, MakeHeader(SetSlots(dst, dst.me, slots)));
            |w.table| == |src.table|
            && (w.table[j] == Some(dst.me) <==> NeedsBump(dst) || EpochOf(src, holder) < dst.currentEpoch)
  {
    ClaimIsAccepted(dst, src, slots, j, holder);
    ClaimEpoch(dst, slots);
  }
}
