/** No node knows, and no packet carries, a config epoch above the current epoch that goes with it. */
module EpochBound {
  import opened Names
  import opened ClusterView
  import opened ClusterBus

  ghost predicate BoundedView(v: View)
  {
    && v.lastVoteEpoch <= v.currentEpoch
    && v.auth.epoch <= v.currentEpoch
    && forall n | n in v.nodes :: v.nodes[n].configEpoch <= v.currentEpoch
  }

  ghost predicate BoundedHeader(h: Header)
  {
    h.configEpoch <= h.currentEpoch
  }

  ghost predicate BoundedPacket(p: Packet)
  {
    BoundedHeader(p.h) && (p.Update? ==> p.epoch <= p.h.currentEpoch)
  }

  ghost predicate Bounded(s: Sys)
  {
    && (forall n | n in s.views :: BoundedView(s.views[n]))
    && (forall p | p in s.net :: BoundedPacket(p))
    && (forall a | a in s.cast :: BoundedHeader(a.h))
    && s.acks <= s.cast
  }

  /** The two views agree on every epoch; only roles, flags and slots may differ. */
  ghost predicate SameEpochs(v: View, w: View)
  {
    && v.me == w.me
    && v.currentEpoch == w.currentEpoch
    && v.lastVoteEpoch == w.lastVoteEpoch
    && v.auth == w.auth
    && v.nodes.Keys == w.nodes.Keys
    && forall n | n in v.nodes :: v.nodes[n].configEpoch == w.nodes[n].configEpoch
  }

  lemma RolesKeepEpochs(v: View, h: Header)
    ensures SameEpochs(v, TakeRole(v, h))
  {
  }

  lemma HeaderKeepsBound(v: View, h: Header)
    requires BoundedView(v) && BoundedHeader(h)
    ensures BoundedView(SeeHeader(v, h))
    ensures h.sender in v.nodes ==> h.currentEpoch <= SeeHeader(v, h).currentEpoch
  {
  }

  lemma RepairKeepsBound(v: View, other: Name)
    requires BoundedView(v)
    ensures BoundedView(Repair(v, other))
  {
  }

  lemma PingKeepsBound(v: View, h: Header)
    requires BoundedView(v) && BoundedHeader(h)
    ensures BoundedView(HandlePing(v, h))
  {
    if h.sender in v.nodes {
      var v0 := SeeHeader(v, h);
      HeaderKeepsBound(v, h);
      var v1 := TakeRole(v0, h);
      RolesKeepEpochs(v0, h);
      assert BoundedView(v1);
      var v2 := UpdateSlots(v1, h.sender, h.configEpoch, h.slots);
      assert SameEpochs(v1, v2);
      RepairKeepsBound(v1, h.sender);
      RepairKeepsBound(v2, h.sender);
    }
  }

  lemma UpdateKeepsBound(v: View, h: Header, about: Name, epoch: nat, claimed: set<nat>)
    requires BoundedView(v) && BoundedHeader(h) && epoch <= h.currentEpoch
    ensures BoundedView(HandleUpdate(v, h, about, epoch, claimed))
  {
    HeaderKeepsBound(v, h);
  }

  lemma CommandKeepsBound(v: View, c: Cmd)
    requires BoundedView(v)
    ensures BoundedView(Execute(v, c))
  {
  }

  lemma LocalKeepsBound(v: View, st: Step)
    requires BoundedView(v)
    requires st.DeliverPing? || st.DeliverUpdate? || st.DeliverRequest? ==> BoundedPacket(st.p)
    requires st.DeliverAck? ==> BoundedHeader(st.a.h)
    ensures BoundedView(Local(v, st))
  {
    match st
    case DeliverPing(n, p) => PingKeepsBound(v, p.h);
    case DeliverUpdate(n, p) => if p.Update? { UpdateKeepsBound(v, p.h, p.about, p.epoch, p.slots); }
    case DeliverRequest(n, p, rested) => HeaderKeepsBound(v, p.h);
    case DeliverAck(n, a) => HeaderKeepsBound(v, a.h);
    case Command(n, c) => CommandKeepsBound(v, c);
    case _ =>
  }

  lemma SendsAreBounded(v: View, w: View, st: Step)
    requires BoundedView(w)
    ensures forall p | p in Sent(w, st) :: BoundedPacket(p)
    ensures forall a | a in Cast(v, w, st) :: BoundedHeader(a.h)
  {
  }

  lemma InstallKeepsBound(s: Sys, t: Sys, n: Name, w: View, sent: set<Packet>, cast: set<Ack>)
    requires Bounded(s) && BoundedView(w)
    requires forall p | p in sent :: BoundedPacket(p)
    requires forall a | a in cast :: BoundedHeader(a.h)
    requires t.views == s.views[n := w] && t.net == s.net + sent
    requires t.cast == s.cast + cast && t.acks <= s.acks + cast
    ensures Bounded(t)
  {
  }

  lemma ApplyKeepsBound(s: Sys, st: Step)
    requires Bounded(s)
    ensures Bounded(Apply(s, st))
  {
    if Enabled(s, st) {
      var v := s.views[st.n];
      LocalKeepsBound(v, st);
      var w := Local(v, st);
      SendsAreBounded(v, w, st);
      InstallKeepsBound(s, Apply(s, st), st.n, w, Sent(w, st), Cast(v, w, st));
    }
  }

  lemma {:induction false} RunKeepsBound(s: Sys, steps: seq<Step>)
    requires Bounded(s)
    ensures Bounded(Run(s, steps))
    decreases |steps|
  {
    if steps != [] {
      ApplyKeepsBound(s, steps[0]);
      RunKeepsBound(Apply(s, steps[0]), steps[1..]);
    }
  }

  // ---------------------------------------------------------------- what follows from the bound

  /** The epochs a node has for itself do not get smaller. */
  ghost predicate OwnGrows(v: View, w: View)
  {
    v.me == w.me && v.currentEpoch <= w.currentEpoch && v.lastVoteEpoch <= w.lastVoteEpoch
  }

  /** No epoch a node holds gets smaller, except for the nodes in `gone`. */
  ghost predicate Grows(v: View, w: View, gone: set<Name>)
  {
    && OwnGrows(v, w)
    && forall n | n in v.nodes && n !in gone :: n in w.nodes && v.nodes[n].configEpoch <= w.nodes[n].configEpoch
  }

  lemma RepairGrows(v: View, other: Name)
    requires BoundedView(v)
    ensures Grows(v, Repair(v, other), {})
  {
  }

  lemma SameEpochsGrow(v: View, w: View)
    requires SameEpochs(v, w)
    ensures Grows(v, w, {})
  {
  }

  lemma GrowsIsTransitive(u: View, v: View, w: View, gone: set<Name>, more: set<Name>)
    requires Grows(u, v, gone) && Grows(v, w, more)
    ensures Grows(u, w, gone + more)
  {
  }

  /** A ping is the header's epochs, then a change of roles and slots only, then perhaps a repair. */
  lemma PingShape(v: View, h: Header) returns (u: View)
    requires h.sender in v.nodes
    ensures SameEpochs(SeeHeader(v, h), u)
    ensures u.nodes.Keys == v.nodes.Keys
    ensures forall n | n in v.nodes && n != h.sender :: u.nodes[n].role == v.nodes[n].role
    ensures h.slaveOf.None? ==> IsMaster(u, h.sender)
    ensures HandlePing(v, h) == if h.configEpoch == EpochOf(u, u.me) then Repair(u, h.sender) else u
  {
    var v0 := SeeHeader(v, h);
    var v1 := TakeRole(v0, h);
    RolesKeepEpochs(v0, h);
    u := TakeSlots(v1, h);
    assert SameEpochs(v1, u);
  }

  lemma PingGrows(v: View, h: Header)
    requires BoundedView(v) && BoundedHeader(h)
    ensures Grows(v, HandlePing(v, h), {})
  {
    if h.sender in v.nodes {
      HeaderKeepsBound(v, h);
      var u := PingShape(v, h);
      SameEpochsGrow(SeeHeader(v, h), u);
      GrowsIsTransitive(v, SeeHeader(v, h), u, {}, {});
      RepairGrows(u, h.sender);
      GrowsIsTransitive(v, u, HandlePing(v, h), {}, {});
    }
  }

  lemma UpdateGrows(v: View, h: Header, about: Name, epoch: nat, claimed: set<nat>)
    requires BoundedView(v)
    ensures Grows(v, HandleUpdate(v, h, about, epoch, claimed), {})
  {
    if h.sender in v.nodes {
      var v1 := SeeHeader(v, h);
      assert Grows(v, v1, {});
      if about in v1.nodes && EpochOf(v1, about) < epoch {
        var v2 := SetEpoch(SetRole(v1, about, Master), about, epoch);
        assert Grows(v1, v2, {});
        GrowsIsTransitive(v, v1, v2, {}, {});
        SameEpochsGrow(v2, UpdateSlots(v2, about, epoch, claimed));
        GrowsIsTransitive(v, v2, UpdateSlots(v2, about, epoch, claimed), {}, {});
      }
    }
  }

  function Dropped(c: Cmd): set<Name>
  {
    if c.ForgetNode? then {c.other} else {}
  }

  lemma CommandGrows(v: View, c: Cmd)
    requires BoundedView(v)
    ensures Grows(v, Execute(v, c), Dropped(c)) && Execute(v, c).auth == v.auth
  {
  }

  /** The node that the step makes the acting node forget. */
  function Gone(st: Step): set<Name>
  {
    if st.Command? then Dropped(st.c) else {}
  }

  lemma LocalGrows(v: View, st: Step)
    requires BoundedView(v)
    requires st.DeliverPing? || st.DeliverUpdate? || st.DeliverRequest? ==> BoundedPacket(st.p)
    requires st.DeliverAck? ==> BoundedHeader(st.a.h)
    ensures Grows(v, Local(v, st), Gone(st))
  {
    match st
    case DeliverPing(n, p) => PingGrows(v, p.h);
    case DeliverUpdate(n, p) => if p.Update? { UpdateGrows(v, p.h, p.about, p.epoch, p.slots); }
    case Command(n, c) => CommandGrows(v, c);
    case _ =>
  }

  /** The nodes that `n` is told to forget in a run. */
  function Forgotten(steps: seq<Step>, n: Name): set<Name>
  {
    if steps == [] then {} else (if steps[0].n == n then Gone(steps[0]) else {}) + Forgotten(steps[1..], n)
  }

  lemma ApplyGrows(s: Sys, st: Step, n: Name)
    requires Bounded(s) && n in s.views
    ensures n in Apply(s, st).views
    ensures Grows(s.views[n], Apply(s, st).views[n], if st.n == n then Gone(st) else {})
  {
    if Enabled(s, st) { LocalGrows(s.views[st.n], st); }
  }

  /** Over every run, every epoch a node holds only ever grows, unless it belongs to a node it forgets on the way. */
  lemma {:induction false} RunGrows(s: Sys, steps: seq<Step>, n: Name)
    requires Bounded(s) && n in s.views
    ensures n in Run(s, steps).views && Grows(s.views[n], Run(s, steps).views[n], Forgotten(steps, n))
    decreases |steps|
  {
    if steps != [] {
      var t, st := Apply(s, steps[0]), steps[0];
      ApplyKeepsBound(s, st);
      ApplyGrows(s, st, n);
      RunGrows(t, steps[1..], n);
      GrowsIsTransitive(s.views[n], t.views[n], Run(s, steps).views[n], if st.n == n then Gone(st) else {},
                        Forgotten(steps[1..], n));
    }
  }

  /** A node that is forgotten and met again starts from epoch zero, whatever it had. */
  lemma MetAgainStartsFromZero(s: Sys, n: Name, other: Name, peer: Peer)
    requires n in s.views && n in s.tally
    requires var v := s.views[n]; other in v.nodes && other != v.me && MasterOf(v, v.me) != Some(other)
    ensures var t := Run(s, [Command(n, ForgetNode(other)), Command(n, Meet(other, peer))]);
            n in t.views && other in t.views[n].nodes && EpochOf(t.views[n], other) == 0
  {
    var forget, meet := Command(n, ForgetNode(other)), Command(n, Meet(other, peer));
    var steps, last, none: seq<Step> := [forget, meet], [meet], [];
    assert steps[1..] == last && last[1..] == none;
    var u := Apply(s, forget);
    assert other !in u.views[n].nodes;
    assert Run(u, last) == Run(Apply(u, meet), none) == Apply(u, meet);
  }

  /**
   Wherever a run leads, a bump without consensus makes the node's own epoch the greatest it knows,
   and strictly greater than every other one if the bump was taken.
   */
  lemma BumpIsHighest(s: Sys, steps: seq<Step>, n: Name)
    requires Bounded(s) && n in Run(s, steps).views
    requires var v := Run(s, steps).views[n]; v.me in v.nodes
    ensures var v := Run(s, steps).views[n];
            var w := Bump(v);
            && (forall m | m in w.nodes :: EpochOf(w, m) <= EpochOf(w, w.me))
            && (NeedsBump(v) ==> EpochOf(w, w.me) == v.currentEpoch + 1
                                 && forall m | m in w.nodes && m != w.me :: EpochOf(w, m) < EpochOf(w, w.me))
            && (!NeedsBump(v) ==> w == v && EpochOf(w, w.me) == w.currentEpoch)
  {
    RunKeepsBound(s, steps);
  }

  /** The same for a collision repair, whichever node it collided with. */
  lemma RepairIsHighest(s: Sys, steps: seq<Step>, n: Name, other: Name)
    requires Bounded(s) && n in Run(s, steps).views
    requires Collides(Run(s, steps).views[n], other)
    ensures var v := Run(s, steps).views[n];
            var w := Repair(v, other);
            forall m | m in w.nodes && m != w.me :: EpochOf(w, m) < EpochOf(w, w.me)
  {
    RunKeepsBound(s, steps);
  }

  /**
   The voter's slot check compares the holders' epochs with the request's current epoch. In every
   reachable state it refuses nobody: whether a request is granted never depends on the claimed slots.
   */
  lemma SlotCheckNeverRefuses(s: Sys, steps: seq<Step>, n: Name, p: Packet)
    requires Bounded(s)
    requires var t := Run(s, steps); n in t.views && p in t.net && p.h.sender in t.views[n].nodes
    ensures var v := SeeHeader(Run(s, steps).views[n], p.h);
            p.h.currentEpoch >= v.currentEpoch ==> !RefusedForSlots(v, p.h)
  {
    RunKeepsBound(s, steps);
    HeaderKeepsBound(Run(s, steps).views[n], p.h);
  }
}
