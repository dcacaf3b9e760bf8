/**
 One node's knowledge of the cluster, and what each bus packet, cron action and command does to it,
 as functions on values. The class in ClusterState.dfy works in place and is proved against them;
 ClusterBus.dfy runs many nodes with them.
 */
module ClusterView {
  import opened Names

  const SLOTS := 16384

  /** Role flag of a node, with the master it follows when that is known. */
  datatype Role = Master | Slave(of: Option<Name>)

  datatype Peer = Peer(configEpoch: nat, role: Role, failed: bool, arbiter: bool)

  /** `armed` says that an election time is set; `sent` that votes were requested. */
  datatype Auth = Auth(epoch: nat, count: nat, sent: bool, armed: bool)

  type Table = seq<Option<Name>>

  datatype View = View(
    me: Name,
    currentEpoch: nat,
    lastVoteEpoch: nat,
    nodes: map<Name, Peer>,
    table: Table,
    auth: Auth)

  datatype Header = Header(
    sender: Name,
    currentEpoch: nat,
    configEpoch: nat,
    slots: set<nat>,
    slaveOf: Option<Name>)

  // ---------------------------------------------------------------- reading a view

  function EpochOf(v: View, n: Name): nat
  {
    if n in v.nodes then v.nodes[n].configEpoch else 0
  }

  predicate IsMaster(v: View, n: Name)
  {
    n in v.nodes && v.nodes[n].role.Master?
  }

  function MasterOf(v: View, n: Name): Option<Name>
  {
    if n in v.nodes && v.nodes[n].role.Slave? then v.nodes[n].role.of else None
  }

  predicate IsArbiter(v: View, n: Name)
  {
    n in v.nodes && v.nodes[n].arbiter
  }

  function SlotsOf(t: Table, n: Name): set<nat>
  {
    set j | 0 <= j < |t| && t[j] == Some(n)
  }

  /** The masters whose votes count: those serving a slot, and the arbiters. */
  function Voters(v: View): set<Name>
  {
    set n | n in v.nodes && IsVoter(v, n)
  }

  predicate IsVoter(v: View, n: Name)
  {
    IsMaster(v, n) && (SlotsOf(v.table, n) != {} || IsArbiter(v, n))
  }

  function Quorum(v: View): nat
  {
    |Voters(v)| / 2 + 1
  }

  /** The header a node puts on its packets: a slave announces its master's slots and epoch. */
  function MakeHeader(v: View): Header
  {
    var speaker := if MasterOf(v, v.me).Some? then MasterOf(v, v.me).value else v.me;
    Header(v.me, v.currentEpoch, EpochOf(v, speaker), SlotsOf(v.table, speaker), MasterOf(v, v.me))
  }

  // ---------------------------------------------------------------- changing a view

  function SetEpoch(v: View, n: Name, e: nat): View
  {
    if n in v.nodes then v.(nodes := v.nodes[n := v.nodes[n].(configEpoch := e)]) else v
  }

  function SetRole(v: View, n: Name, r: Role): View
  {
    if n in v.nodes then v.(nodes := v.nodes[n := v.nodes[n].(role := r)]) else v
  }

  /** Every slot that `from` holds goes to `to`. */
  function Moved(t: Table, from: Name, to: Option<Name>): Table
  {
    seq(|t|, j requires 0 <= j < |t| => if t[j] == Some(from) then to else t[j])
  }

  /** A slot gives way to a claim when nobody holds it or its holder's config epoch is smaller. */
  predicate Yields(v: View, holder: Option<Name>, epoch: nat)
  {
    holder.None? || EpochOf(v, holder.value) < epoch
  }

  function Merged(v: View, claimant: Name, epoch: nat, claimed: set<nat>): Table
  {
    seq(|v.table|, j requires 0 <= j < |v.table| =>
      if j in claimed && Yields(v, v.table[j], epoch) then Some(claimant) else v.table[j])
  }

  function UpdateSlots(v: View, claimant: Name, epoch: nat, claimed: set<nat>): View
  {
    if claimant == v.me then v else v.(table := Merged(v, claimant, epoch, claimed))
  }

  // ---------------------------------------------------------------- bus packets

  function SeeHeader(v: View, h: Header): View
  {
    if h.sender !in v.nodes then v
    else SetEpoch(v.(currentEpoch := Max(v.currentEpoch, h.currentEpoch)),
                  h.sender, Max(EpochOf(v, h.sender), h.configEpoch))
  }

  /** The sender's announced role; a master that turned slave loses its slots. */
  function TakeRole(v: View, h: Header): View
  {
    if h.slaveOf.None? then SetRole(v, h.sender, Master)
    else
      var w := if IsMaster(v, h.sender)
               then SetRole(v.(table := Moved(v.table, h.sender, None)), h.sender, Slave(None))
               else v;
      if h.slaveOf.value in v.nodes then SetRole(w, h.sender, Slave(h.slaveOf)) else w
  }

  /** The claimed slots differ from those we hold for the sender, or for its master. */
  predicate Dirty(v: View, h: Header)
  {
    var speaker := if IsMaster(v, h.sender) then Some(h.sender) else MasterOf(v, h.sender);
    speaker.Some? && SlotsOf(v.table, speaker.value) != h.slots
  }

  predicate Collides(v: View, other: Name)
  {
    IsMaster(v, other) && IsMaster(v, v.me) && EpochOf(v, other) == EpochOf(v, v.me) && Less(v.me, other)
  }

  /** The collision repair: the smaller name takes the next epoch it knows of. */
  function Repair(v: View, other: Name): View
  {
    if Collides(v, other)
    then SetEpoch(v.(currentEpoch := v.currentEpoch + 1), v.me, v.currentEpoch + 1)
    else v
  }

  /** The claimed slots of a master, when they differ from those held for it. */
  function TakeSlots(v: View, h: Header): View
  {
    if IsMaster(v, h.sender) && Dirty(v, h) then UpdateSlots(v, h.sender, h.configEpoch, h.slots) else v
  }

  function HandlePing(v: View, h: Header): View
  {
    if h.sender !in v.nodes then v
    else
      var w := TakeSlots(TakeRole(SeeHeader(v, h), h), h);
      if h.configEpoch == EpochOf(w, w.me) then Repair(w, h.sender) else w
  }

  /** The sender claims the slot, but we know it under another node with a greater epoch. */
  predicate Outdated(v: View, h: Header, j: nat)
  {
    && j in h.slots && j < |v.table| && v.table[j].Some? && v.table[j].value != h.sender
    && EpochOf(v, v.table[j].value) > h.configEpoch
  }

  function HandleUpdate(v: View, h: Header, about: Name, epoch: nat, claimed: set<nat>): View
  {
    if h.sender !in v.nodes then v
    else
      var v1 := SeeHeader(v, h);
      if about !in v1.nodes || EpochOf(v1, about) >= epoch then v1
      else UpdateSlots(SetEpoch(SetRole(v1, about, Master), about, epoch), about, epoch, claimed)
  }

  /** Some claimed slot is held by a node whose config epoch is above the request's current epoch. */
  predicate RefusedForSlots(v: View, h: Header)
  {
    exists j | 0 <= j < |v.table| :: j in h.slots && v.table[j].Some? && EpochOf(v, v.table[j].value) > h.currentEpoch
  }

  /** `rested`: twice the node timeout has passed since the last vote about that master. */
  predicate Grants(v: View, h: Header, force: bool, rested: bool)
  {
    && h.sender in v.nodes
    && ((IsMaster(v, v.me) && SlotsOf(v.table, v.me) != {}) || IsArbiter(v, v.me))
    && h.currentEpoch >= v.currentEpoch
    && v.lastVoteEpoch != v.currentEpoch
    && h.slaveOf.Some?
    && MasterOf(v, h.sender).Some?
    && (force || (MasterOf(v, h.sender).value in v.nodes && v.nodes[MasterOf(v, h.sender).value].failed))
    && rested
    && !RefusedForSlots(v, h)
  }

  function HandleAuthRequest(v: View, h: Header, force: bool, rested: bool): View
  {
    var v1 := SeeHeader(v, h);
    if Grants(v1, h, force, rested) then v1.(lastVoteEpoch := v1.currentEpoch) else v1
  }

  predicate Counts(v: View, h: Header)
  {
    IsVoter(v, h.sender) && h.currentEpoch >= v.auth.epoch
  }

  function HandleAck(v: View, h: Header): View
  {
    var v1 := SeeHeader(v, h);
    if Counts(v1, h) then v1.(auth := v1.auth.(count := v1.auth.count + 1)) else v1
  }

  // ---------------------------------------------------------------- the election cron

  predicate MayFailOver(v: View, manual: bool)
  {
    var m := MasterOf(v, v.me);
    m.Some? && m.value in v.nodes && (v.nodes[m.value].failed || manual) && SlotsOf(v.table, m.value) != {}
  }

  function Schedule(v: View): View
  {
    v.(auth := v.auth.(count := 0, sent := false, armed := true))
  }

  /** Resetting the failover state clears the epoch, the count and the time, not the sent mark. */
  function ResetFailover(v: View): View
  {
    v.(auth := v.auth.(epoch := 0, count := 0, armed := false))
  }

  function RequestVotes(v: View): View
  {
    v.(currentEpoch := v.currentEpoch + 1, auth := v.auth.(epoch := v.currentEpoch + 1, sent := true))
  }

  predicate Wins(v: View)
  {
    v.auth.armed && v.auth.sent && v.auth.count >= Quorum(v)
  }

  function TakeElectionEpoch(v: View): View
  {
    SetEpoch(v, v.me, Max(EpochOf(v, v.me), v.auth.epoch))
  }

  /** A slave becomes master and takes over exactly its old master's slots. */
  function ReplaceMaster(v: View): View
  {
    var m := MasterOf(v, v.me);
    if m.None? then v else SetRole(v.(table := Moved(v.table, m.value, Some(v.me))), v.me, Master)
  }

  // ---------------------------------------------------------------- commands

  function KnownEpochs(v: View): set<nat>
  {
    set n | n in v.nodes :: v.nodes[n].configEpoch
  }

  /** The greatest of the known config epochs and the current epoch. */
  ghost predicate IsMaxEpoch(v: View, m: nat)
  {
    && (m == v.currentEpoch || m in KnownEpochs(v))
    && v.currentEpoch <= m
    && forall n | n in v.nodes :: v.nodes[n].configEpoch <= m
  }

  /** Whether the bump is taken: the own epoch is zero, or not the greatest one known. */
  predicate NeedsBump(v: View)
  {
    var mine := EpochOf(v, v.me);
    mine == 0 || mine < v.currentEpoch || exists n | n in v.nodes :: v.nodes[n].configEpoch > mine
  }

  function Bump(v: View): View
  {
    if NeedsBump(v)
    then SetEpoch(v.(currentEpoch := v.currentEpoch + 1), v.me, v.currentEpoch + 1)
    else v
  }

  /** `CLUSTER SET-CONFIG-EPOCH`: only on a node that knows nobody else and has epoch zero. */
  function AssignEpoch(v: View, e: nat): View
  {
    if v.nodes.Keys != {v.me} || EpochOf(v, v.me) != 0 then v
    else SetEpoch(v.(currentEpoch := Max(v.currentEpoch, e)), v.me, e)
  }

  /** The table after every slot of `slots` was handed to `n`. */
  function Assigned(t: Table, n: Option<Name>, slots: set<nat>): Table
  {
    seq(|t|, j requires 0 <= j < |t| => if j in slots then n else t[j])
  }

  /** The first slot of `slots` from `k` on that nobody holds; the end of the table if there is none. */
  function FirstFree(t: Table, slots: set<nat>, k: nat): (f: nat)
    requires k <= |t|
    ensures k <= f <= |t|
    ensures f < |t| ==> f in slots && t[f].None?
    ensures forall j | k <= j < f :: j in slots ==> t[j].Some?
    decreases |t| - k
  {
    if k == |t| || (k in slots && t[k].None?) then k else FirstFree(t, slots, k + 1)
  }

  /**
   Handing slots over stops at the first unassigned one, with the earlier ones already moved; a node
   that took every slot for itself bumps its epoch.
   */
  function SetSlots(v: View, n: Name, slots: set<nat>): View
  {
    var stop := FirstFree(v.table, slots, 0);
    var w := v.(table := Assigned(v.table, Some(n), set j | j in slots && j < stop));
    if stop == |v.table| && n == v.me then Bump(w) else w
  }

  function Orphaned(r: Role, gone: Name): Role
  {
    if r == Slave(Some(gone)) then Slave(None) else r
  }

  /** `CLUSTER FORGET`: the node's slots become unassigned and its slaves lose their master. */
  function Forget(v: View, n: Name): View
  {
    v.(table := Moved(v.table, n, None), nodes := map m | m in v.nodes && m != n :: v.nodes[m].(role := Orphaned(v.nodes[m].role, n)))
  }
}
