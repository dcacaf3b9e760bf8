/**
 The cluster as a whole: every node's view, the packets in flight, and one step per handled packet,
 cron action or command. A run is a list of steps; a step that is not enabled changes nothing.
 Packets other than votes may be delayed, reordered, repeated or lost; a vote is delivered at most once.
 */
module ClusterBus {
  import opened Names
  import opened ClusterView

  datatype Packet =
    | Ping(h: Header)
    | Update(h: Header, about: Name, epoch: nat, slots: set<nat>)
    | AuthRequest(h: Header, force: bool)

  /** A FAILOVER_AUTH_ACK: the voter's header, addressed to one candidate. */
  datatype Ack = Ack(h: Header, to: Name)

  /** A won election, with the acknowledgements that were counted for it. */
  datatype Victory = Victory(who: Name, epoch: nat, acks: set<Ack>)

  /**
   `cast` holds every vote ever sent, `tally` the votes a node counted since it last cleared its
   counter, and `wins` the elections won so far: the history the election theorems speak about.
   */
  datatype Sys = Sys(
    views: map<Name, View>,
    net: set<Packet>,
    acks: set<Ack>,
    cast: set<Ack>,
    tally: map<Name, set<Ack>>,
    wins: set<Victory>)

  /** Commands and failure detection, which change one node's view and send nothing. */
  datatype Cmd =
    | BumpEpoch
    | ChooseEpoch(e: nat)
    | Meet(other: Name, peer: Peer)
    | ForgetNode(other: Name)
    | Flag(other: Name, failed: bool)
    | Follow(master: Name)
    | AddSlot(slot: nat)
    | DelSlot(slot: nat)
    | HandSlots(owner: Name, slots: set<nat>)

  function Execute(v: View, c: Cmd): View
  {
    match c
    case BumpEpoch => Bump(v)
    case ChooseEpoch(e) => AssignEpoch(v, e)
    case Meet(other, peer) =>
      if other in v.nodes then v else v.(nodes := v.nodes[other := peer.(configEpoch := 0)])
    case ForgetNode(other) =>
      if other !in v.nodes || other == v.me || MasterOf(v, v.me) == Some(other) then v else Forget(v, other)
    case Flag(other, failed) =>
      if other in v.nodes then v.(nodes := v.nodes[other := v.nodes[other].(failed := failed)]) else v
    case Follow(master) =>
      if master !in v.nodes || master == v.me || SlotsOf(v.table, v.me) != {} || IsArbiter(v, v.me) then v
      else SetRole(v, v.me, Slave(Some(master)))
    case AddSlot(slot) =>
      if slot < |v.table| && v.table[slot].None? then v.(table := v.table[slot := Some(v.me)]) else v
    case DelSlot(slot) => if slot < |v.table| then v.(table := v.table[slot := None]) else v
    case HandSlots(owner, slots) => if owner in v.nodes then SetSlots(v, owner, slots) else v
  }

  datatype Step =
    | SendPing(n: Name)
    | SendUpdate(n: Name, about: Name)
    | DeliverPing(n: Name, p: Packet)
    | DeliverUpdate(n: Name, p: Packet)
    | DeliverRequest(n: Name, p: Packet, rested: bool)
    | DeliverAck(n: Name, a: Ack)
    | ScheduleElection(n: Name, manual: bool)
    | ExpireElection(n: Name, manual: bool)
    | StartElection(n: Name, manual: bool)
    | WinElection(n: Name, manual: bool)
    | Promote(n: Name)
    | Command(n: Name, c: Cmd)

  /** What the step needs: a packet that is in flight from someone else, or the guard of the cron action. */
  predicate Enabled(s: Sys, st: Step)
  {
    && st.n in s.views
    && st.n in s.tally
    && var v := s.views[st.n];
       match st
       case SendUpdate(n, about) => about in v.nodes
       case DeliverPing(n, p) => p.Ping? && p in s.net && p.h.sender != n
       case DeliverUpdate(n, p) => p.Update? && p in s.net && p.h.sender != n
       case DeliverRequest(n, p, rested) => p.AuthRequest? && p in s.net && p.h.sender != n
       case DeliverAck(n, a) => a in s.acks && a.to == n
       case ScheduleElection(n, manual) => MayFailOver(v, manual)
       case ExpireElection(n, manual) => MayFailOver(v, manual)
       case StartElection(n, manual) => MayFailOver(v, manual) && v.auth.armed && !v.auth.sent
       case WinElection(n, manual) => MayFailOver(v, manual) && Wins(v)
       case _ => true
  }

  /** What an enabled step makes of the acting node's view. */
  function Local(v: View, st: Step): View
  {
    match st
    case DeliverPing(n, p) => HandlePing(v, p.h)
    case DeliverUpdate(n, p) => if p.Update? then HandleUpdate(v, p.h, p.about, p.epoch, p.slots) else v
    case DeliverRequest(n, p, rested) => if p.AuthRequest? then HandleAuthRequest(v, p.h, p.force, rested) else v
    case DeliverAck(n, a) => HandleAck(v, a.h)
    case ScheduleElection(n, manual) => Schedule(v)
    case ExpireElection(n, manual) => ResetFailover(v)
    case StartElection(n, manual) => RequestVotes(v)
    case WinElection(n, manual) => TakeElectionEpoch(v)
    case Promote(n) => ResetFailover(ReplaceMaster(v))
    case Command(n, c) => Execute(v, c)
    case _ => v
  }

  /** The packets a step sends; `w` is the view after it. */
  function Sent(w: View, st: Step): set<Packet>
  {
    match st
    case SendPing(n) => {Ping(MakeHeader(w))}
    case SendUpdate(n, about) => {Update(MakeHeader(w), about, EpochOf(w, about), SlotsOf(w.table, about))}
    case StartElection(n, manual) => {AuthRequest(MakeHeader(w), manual)}
    case _ => {}
  }

  /** The vote a step casts. */
  function Cast(v: View, w: View, st: Step): set<Ack>
  {
    match st
    case DeliverRequest(n, p, rested) =>
      if p.AuthRequest? && Grants(SeeHeader(v, p.h), p.h, p.force, rested)
      then {Ack(MakeHeader(w), p.h.sender)} else {}
    case _ => {}
  }

  function Tallied(v: View, st: Step, counted: set<Ack>): set<Ack>
  {
    match st
    case DeliverAck(n, a) => if Counts(SeeHeader(v, a.h), a.h) then counted + {a} else counted
    case ScheduleElection(n, manual) => {}
    case ExpireElection(n, manual) => {}
    case Promote(n) => {}
    case _ => counted
  }

  function Won(v: View, st: Step, counted: set<Ack>): set<Victory>
  {
    if st.WinElection? then {Victory(st.n, v.auth.epoch, counted)} else {}
  }

  function Apply(s: Sys, st: Step): Sys
  {
    if !Enabled(s, st) then s
    else
      var v := s.views[st.n];
      var w := Local(v, st);
      Sys(s.views[st.n := w],
          s.net + Sent(w, st),
          (if st.DeliverAck? then s.acks - {st.a} else s.acks) + Cast(v, w, st),
          s.cast + Cast(v, w, st),
          s.tally[st.n := Tallied(v, st, s.tally[st.n])],
          s.wins + Won(v, st, s.tally[st.n]))
  }

  function Run(s: Sys, steps: seq<Step>): Sys
    decreases |steps|
  {
    if steps == [] then s else Run(Apply(s, steps[0]), steps[1..])
  }
}
