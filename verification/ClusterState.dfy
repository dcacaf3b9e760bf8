/**
 The slot table of a node as it is kept in memory: every node object has a bitmap of its slots and a
 counter, the table has one node reference per slot, and each operation changes them in place. `Valid`
 says that they agree; `Seen` is the value the functions of ClusterView speak about.
 */
module ClusterState {
  import opened Names
  import opened ClusterView

  class ClusterNode {
    const name: Name
    var configEpoch: nat
    var role: Role
    var failed: bool
    var arbiter: bool
    var mySlots: set<nat>
    var numSlots: nat

    constructor (name: Name, role: Role)
      ensures this.name == name && this.role == role && configEpoch == 0 && !failed && !arbiter
      ensures mySlots == {} && numSlots == 0
    {
      this.name := name;
      this.role := role;
      configEpoch, failed, arbiter := 0, false, false;
      mySlots, numSlots := {}, 0;
    }

    method AddSlot(slot: nat) returns (ok: bool)
      requires numSlots == |mySlots|
      modifies this`mySlots, this`numSlots
      ensures ok == (slot < SLOTS && slot !in old(mySlots))
      ensures mySlots == if ok then old(mySlots) + {slot} else old(mySlots)
      ensures numSlots == |mySlots|
    {
      if slot >= SLOTS || slot in mySlots { return false; }
      mySlots := mySlots + {slot};
      numSlots := numSlots + 1;
      return true;
    }

    method ClearSlotBit(slot: nat) returns (was: bool)
      requires numSlots == |mySlots|
      modifies this`mySlots, this`numSlots
      ensures was == (slot in old(mySlots)) && mySlots == old(mySlots) - {slot}
      ensures numSlots == |mySlots|
    {
      was := slot in mySlots;
      if was {
        assert mySlots == (mySlots - {slot}) + {slot};
        numSlots := numSlots - 1;
      } else {
        assert mySlots - {slot} == mySlots;
      }
      mySlots := mySlots - {slot};
    }
  }

  function Holders(t: seq<ClusterNode?>): (r: Table)
    ensures |r| == |t|
    ensures forall j | 0 <= j < |t| :: r[j] == if t[j] == null then None else Some(t[j].name)
  {
    seq(|t|, j requires 0 <= j < |t| => if t[j] == null then None else Some(t[j].name))
  }

  /** Comparing with the greatest known epoch finds out whether a bump is needed. */
  lemma BumpGuard(v: View, max: nat)
    requires IsMaxEpoch(v, max)
    ensures NeedsBump(v) <==> EpochOf(v, v.me) == 0 || EpochOf(v, v.me) != max
  {
  }

  class ClusterState {
    var nodes: map<Name, ClusterNode>
    const allSlots: array<ClusterNode?>
    const myself: ClusterNode
    var currentEpoch: nat
    var lastVoteEpoch: nat
    var auth: Auth

    ghost predicate Known(n: ClusterNode)
      reads this`nodes
    {
      n.name in nodes && nodes[n.name] == n
    }

    /** The table, the bitmaps and the counters tell the same story. */
    ghost predicate Valid()
      reads this`nodes, allSlots, nodes.Values`mySlots, nodes.Values`numSlots
    {
      && allSlots.Length == SLOTS
      && Known(myself)
      && (forall nm | nm in nodes :: nodes[nm].name == nm && nodes[nm].numSlots == |nodes[nm].mySlots|)
      && (forall j | 0 <= j < SLOTS && allSlots[j] != null :: Known(allSlots[j]))
      && (forall nm, j | nm in nodes :: j in nodes[nm].mySlots <==> 0 <= j < SLOTS && allSlots[j] == nodes[nm])
    }

    ghost function Table(): (t: Table)
      requires allSlots.Length == SLOTS
      reads allSlots
    {
      Holders(allSlots[..])
    }

    ghost function Peers(): map<Name, Peer>
      reads this`nodes, nodes.Values`configEpoch, nodes.Values`role, nodes.Values`failed, nodes.Values`arbiter
    {
      map nm | nm in nodes :: Peer(nodes[nm].configEpoch, nodes[nm].role, nodes[nm].failed, nodes[nm].arbiter)
    }

    ghost function Seen(): View
      requires allSlots.Length == SLOTS
      reads this, allSlots
      reads nodes.Values`configEpoch, nodes.Values`role, nodes.Values`failed, nodes.Values`arbiter
    {
      View(myself.name, currentEpoch, lastVoteEpoch, Peers(), Table(), auth)
    }

    constructor (name: Name)
      ensures Valid() && fresh(allSlots) && fresh(myself) && fresh(nodes.Values)
      ensures Seen() == View(name, 0, 0, map[name := Peer(0, Master, false, false)],
                             seq(SLOTS, j => None), Auth(0, 0, false, false))
    {
      var n := new ClusterNode(name, Master);
      myself := n;
      nodes := map[name := n];
      allSlots := new ClusterNode?[SLOTS](j => null);
      currentEpoch, lastVoteEpoch := 0, 0;
      auth := Auth(0, 0, false, false);
    }

    // -------------------------------------------------------------- one node

    method SetNodeEpoch(n: ClusterNode, e: nat)
      requires Valid() && Known(n)
      modifies n`configEpoch
      ensures Valid() && Seen() == SetEpoch(old(Seen()), n.name, e)
    {
      n.configEpoch := e;
      assert Peers() == old(Peers())[n.name := old(Peers())[n.name].(configEpoch := e)];
    }

    method SetNodeRole(n: ClusterNode, r: Role)
      requires Valid() && Known(n)
      modifies n`role
      ensures Valid() && Seen() == SetRole(old(Seen()), n.name, r) && n.role == r
    {
      n.role := r;
      assert Peers() == old(Peers())[n.name := old(Peers())[n.name].(role := r)];
    }

    // -------------------------------------------------------------- one slot

    method AddSlot(n: ClusterNode, slot: nat) returns (ok: bool)
      requires Valid() && Known(n) && slot < SLOTS
      modifies allSlots, nodes.Values`mySlots, nodes.Values`numSlots
      ensures Valid() && ok == (old(allSlots[slot]) == null)
      ensures allSlots[..] == if ok then old(allSlots[..])[slot := n] else old(allSlots[..])
    {
      if allSlots[slot] != null { return false; }
      ok := n.AddSlot(slot);
      if ok { allSlots[slot] := n; }
    }

    /** Clearing the bit of the slot's holder always finds it set. */
    method DelSlot(slot: nat) returns (ok: bool)
      requires Valid() && slot < SLOTS
      modifies allSlots, nodes.Values`mySlots, nodes.Values`numSlots
      ensures Valid() && ok == (old(allSlots[slot]) != null)
      ensures allSlots[..] == old(allSlots[..])[slot := null]
    {
      var n := allSlots[slot];
      if n == null { return false; }
      assert Known(n);
      var was := n.ClearSlotBit(slot);
      assert was;
      allSlots[slot] := null;
      return true;
    }

    /** A node's bitmap is its part of the table, and its counter the size of that part. */
    lemma BitsAreSlots(n: ClusterNode)
      requires Valid() && Known(n)
      ensures n.mySlots == SlotsOf(Table(), n.name) && n.numSlots == |SlotsOf(Table(), n.name)|
    {
      forall j: nat ensures j in n.mySlots <==> j in SlotsOf(Table(), n.name) {
        assert j in nodes[n.name].mySlots <==> j < SLOTS && allSlots[j] == nodes[n.name];
        assert j in SlotsOf(Table(), n.name) <==> j < SLOTS && Table()[j] == Some(n.name);
      }
    }

    method Reassign(n: ClusterNode, slot: nat)
      requires Valid() && Known(n) && slot < SLOTS
      modifies allSlots, nodes.Values`mySlots, nodes.Values`numSlots
      ensures Valid() && allSlots[..] == old(allSlots[..])[slot := n]
    {
      var deleted := DelSlot(slot);
      var added := AddSlot(n, slot);
    }

    // -------------------------------------------------------------- many slots

    /** A node that stops being a master loses all its slots, and nobody else loses any. */
    method DelNodeSlots(n: ClusterNode) returns (deleted: nat)
      requires Valid() && Known(n)
      modifies allSlots, nodes.Values`mySlots, nodes.Values`numSlots
      ensures Valid() && Seen() == old(Seen()).(table := Moved(old(Table()), n.name, None))
      ensures deleted == |SlotsOf(old(Table()), n.name)| && n.mySlots == {}
    {
      deleted := 0;
      ghost var was := allSlots[..];
      ghost var gone: set<nat> := {};
      for j := 0 to SLOTS
        invariant Valid() && deleted == |gone|
        invariant forall k :: k in gone <==> 0 <= k < j && was[k] == n
        invariant forall k | 0 <= k < j :: allSlots[k] == if was[k] == n then null else was[k]
        invariant forall k | j <= k < SLOTS :: allSlots[k] == was[k]
      {
        assert nodes[n.name] == n;
        if j in n.mySlots {
          var ok := DelSlot(j);
          deleted := deleted + 1;
          gone := gone + {j};
        }
      }
      assert gone == SlotsOf(old(Table()), n.name);
      BitsAreSlots(n);
      assert Table() == Moved(old(Table()), n.name, None);
    }

    lemma MergedInPlace(v: View, was: seq<ClusterNode?>, sender: ClusterNode, epoch: nat, slots: set<nat>)
      requires allSlots.Length == SLOTS == |was| && v.table == Holders(was) && v.nodes == Peers()
      requires forall k | 0 <= k < SLOTS && was[k] != null :: Known(was[k])
      requires forall k | 0 <= k < SLOTS ::
                 allSlots[k] == if k in slots && (was[k] == null || was[k].configEpoch < epoch) then sender else was[k]
      ensures Table() == Merged(v, sender.name, epoch, slots)
    {
    }

    lemma MovedInPlace(was: seq<ClusterNode?>, from: Name, to: ClusterNode)
      requires allSlots.Length == SLOTS == |was|
      requires forall k | 0 <= k < SLOTS ::
                 allSlots[k] == if was[k] != null && was[k].name == from then to else was[k]
      ensures Table() == Moved(Holders(was), from, Some(to.name))
    {
    }

    /** Rebinds the claimed slots that nobody holds or that a smaller epoch holds. */
    method UpdateSlotsConfigWith(sender: ClusterNode, senderConfigEpoch: nat, slots: set<nat>)
      requires Valid() && Known(sender)
      modifies allSlots, nodes.Values`mySlots, nodes.Values`numSlots
      ensures Valid() && Seen() == UpdateSlots(old(Seen()), sender.name, senderConfigEpoch, slots)
    {
      if sender == myself { return; }
      ghost var was := allSlots[..];
      for j := 0 to SLOTS
        invariant Valid()
        invariant forall k | 0 <= k < j ::
                    allSlots[k] == if k in slots && (was[k] == null || was[k].configEpoch < senderConfigEpoch)
                                   then sender else was[k]
        invariant forall k | j <= k < SLOTS :: allSlots[k] == was[k]
      {
        if j in slots && allSlots[j] != sender {
          if allSlots[j] == null || allSlots[j].configEpoch < senderConfigEpoch {
            Reassign(sender, j);
          }
        }
      }
      MergedInPlace(old(Seen()), was, sender, senderConfigEpoch, slots);
    }

    method TakeSlotsOf(from: Name, to: ClusterNode)
      requires Valid() && Known(to)
      modifies allSlots, nodes.Values`mySlots, nodes.Values`numSlots
      ensures Valid() && Seen() == old(Seen()).(table := Moved(old(Table()), from, Some(to.name)))
    {
      ghost var was := allSlots[..];
      for j := 0 to SLOTS
        invariant Valid()
        invariant forall k | 0 <= k < j :: allSlots[k] == if was[k] != null && was[k].name == from then to else was[k]
        invariant forall k | j <= k < SLOTS :: allSlots[k] == was[k]
      {
        if allSlots[j] != null && allSlots[j].name == from {
          Reassign(to, j);
        }
      }
      MovedInPlace(was, from, to);
    }

    /** The promoted slave takes exactly its old master's slots. */
    method FailoverReplaceMasterMeta() returns (ok: bool)
      requires Valid()
      modifies allSlots, nodes.Values`mySlots, nodes.Values`numSlots, myself`role
      ensures Valid() && Seen() == ReplaceMaster(old(Seen()))
      ensures ok == MasterOf(old(Seen()), myself.name).Some?
    {
      if myself.role.Master? || myself.role.of.None? { return false; }
      var oldMaster := myself.role.of.value;
      SetNodeRole(myself, Master);
      TakeSlotsOf(oldMaster, myself);
      return true;
    }

    // -------------------------------------------------------------- epochs

    method MaxEpoch() returns (max: nat)
      requires Valid()
      ensures IsMaxEpoch(Seen(), max)
    {
      max := 0;
      var rest := nodes.Keys;
      while rest != {}
        invariant rest <= nodes.Keys
        invariant max == 0 || max in KnownEpochs(Seen())
        invariant forall nm | nm in nodes && nm !in rest :: nodes[nm].configEpoch <= max
      {
        var nm :| nm in rest;
        if nodes[nm].configEpoch > max {
          max := nodes[nm].configEpoch;
          assert Peers()[nm].configEpoch == max;
        }
        rest := rest - {nm};
      }
      if max < currentEpoch { max := currentEpoch; }
    }

    /** The next epoch, for the cluster and for this node. */
    method TakeNextEpoch()
      requires Valid()
      modifies this`currentEpoch, myself`configEpoch
      ensures Valid()
      ensures Seen() == SetEpoch(old(Seen()).(currentEpoch := old(currentEpoch) + 1), myself.name, old(currentEpoch) + 1)
    {
      currentEpoch := currentEpoch + 1;
      SetNodeEpoch(myself, currentEpoch);
    }

    method BumpConfigEpochWithoutConsensus()
      requires Valid()
      modifies this`currentEpoch, myself`configEpoch
      ensures Valid() && Seen() == Bump(old(Seen()))
    {
      var max := MaxEpoch();
      BumpGuard(Seen(), max);
      assert EpochOf(Seen(), myself.name) == myself.configEpoch;
      if myself.configEpoch == 0 || myself.configEpoch != max {
        TakeNextEpoch();
      }
    }

    method HandleConfigEpochCollision(sender: ClusterNode)
      requires Valid() && Known(sender)
      modifies this`currentEpoch, myself`configEpoch
      ensures Valid() && Seen() == Repair(old(Seen()), sender.name)
    {
      if sender.configEpoch != myself.configEpoch || !sender.role.Master? || !myself.role.Master? { return; }
      LessIsTotal(sender.name, myself.name);
      if !Less(myself.name, sender.name) { return; }
      TakeNextEpoch();
    }

    // -------------------------------------------------------------- commands

    method HandSlots(n: ClusterNode, slots: set<nat>) returns (ok: bool)
      requires Valid() && Known(n)
      modifies allSlots, nodes.Values`mySlots, nodes.Values`numSlots
      ensures Valid() && ok == (FirstFree(old(Table()), slots, 0) == SLOTS)
      ensures Seen() == old(Seen()).(table := Assigned(old(Table()), Some(n.name),
                                              set j | j in slots && j < FirstFree(old(Table()), slots, 0)))
    {
      ghost var was := allSlots[..];
      var j := 0;
      while j < SLOTS
        invariant j <= SLOTS && Valid() && FirstFree(Holders(was), slots, j) == FirstFree(Holders(was), slots, 0)
        invariant forall k | 0 <= k < j :: allSlots[k] == if k in slots then n else was[k]
        invariant forall k | j <= k < SLOTS :: allSlots[k] == was[k]
      {
        if j in slots && allSlots[j] != n {
          if allSlots[j] == null { break; }
          Reassign(n, j);
        }
        j := j + 1;
      }
      ok := j == SLOTS;
      AssignedInPlace(was, n, slots, j);
    }

    lemma AssignedInPlace(was: seq<ClusterNode?>, n: ClusterNode, slots: set<nat>, stop: nat)
      requires allSlots.Length == SLOTS == |was|
      requires forall k | 0 <= k < SLOTS :: allSlots[k] == if k in slots && k < stop then n else was[k]
      ensures Table() == Assigned(Holders(was), Some(n.name), set j | j in slots && j < stop)
    {
    }

    method SetSlots(n: ClusterNode, slots: set<nat>) returns (ok: bool)
      requires Valid() && Known(n)
      modifies this`currentEpoch, myself`configEpoch, allSlots, nodes.Values`mySlots, nodes.Values`numSlots
      ensures Valid() && Seen() == ClusterView.SetSlots(old(Seen()), n.name, slots)
    {
      ok := HandSlots(n, slots);
      if ok && n == myself {
        BumpConfigEpochWithoutConsensus();
      }
    }

    // -------------------------------------------------------------- votes

    method FindRefusal(h: Header) returns (found: bool)
      requires Valid()
      ensures found == RefusedForSlots(Seen(), h)
    {
      for j := 0 to SLOTS
        invariant forall k | 0 <= k < j ::
                    k in h.slots && allSlots[k] != null ==> allSlots[k].configEpoch <= h.currentEpoch
      {
        if j in h.slots && allSlots[j] != null && allSlots[j].configEpoch > h.currentEpoch {
          assert Table()[j] == Some(allSlots[j].name) && Known(allSlots[j]);
          return true;
        }
      }
      return false;
    }

    method HasVote() returns (voter: bool)
      requires Valid()
      ensures voter == ((IsMaster(Seen(), myself.name) && SlotsOf(Table(), myself.name) != {}) || IsArbiter(Seen(), myself.name))
    {
      BitsAreSlots(myself);
      voter := !((myself.role.Slave? || myself.numSlots == 0) && !myself.arbiter);
    }

    /** The checks, in the order in which a vote may be denied. */
    method IsGranted(node: ClusterNode, h: Header, force: bool, rested: bool) returns (granted: bool)
      requires Valid() && Known(node) && node.name == h.sender
      ensures granted == Grants(Seen(), h, force, rested)
    {
      var master := if node.role.Slave? then node.role.of else None;
      var voter := HasVote();
      if !voter { return false; }
      if h.currentEpoch < currentEpoch { return false; }
      if lastVoteEpoch == currentEpoch { return false; }
      if h.slaveOf.None? || master.None? { return false; }
      if !(master.value in nodes && nodes[master.value].failed) && !force { return false; }
      if !rested { return false; }
      var refused := FindRefusal(h);
      return !refused;
    }

    method SendFailoverAuthIfNeeded(node: ClusterNode, h: Header, force: bool, rested: bool) returns (granted: bool)
      requires Valid() && Known(node) && node.name == h.sender
      modifies this`lastVoteEpoch
      ensures Valid() && granted == Grants(old(Seen()), h, force, rested)
      ensures Seen() == if granted then old(Seen()).(lastVoteEpoch := currentEpoch) else old(Seen())
    {
      granted := IsGranted(node, h, force, rested);
      if granted { lastVoteEpoch := currentEpoch; }
    }

    // -------------------------------------------------------------- nodes come and go

    method DetachSlaves(n: ClusterNode)
      requires Valid() && Known(n)
      modifies nodes.Values`role
      ensures Valid()
      ensures Peers() == map m | m in old(Peers()) :: old(Peers())[m].(role := Orphaned(old(Peers())[m].role, n.name))
    {
      var rest := nodes.Keys;
      while rest != {}
        invariant rest <= nodes.Keys
        invariant forall m | m in nodes ::
                    nodes[m].role == if m in rest then old(nodes[m].role) else Orphaned(old(nodes[m].role), n.name)
      {
        var m :| m in rest;
        if nodes[m].role == Slave(Some(n.name)) { nodes[m].role := Slave(None); }
        rest := rest - {m};
      }
    }

    method Unlink(n: ClusterNode)
      requires Valid() && Known(n) && n != myself && n.name !in SlotHolders()
      modifies this`nodes
      ensures Valid() && !Known(n) && Peers() == old(Peers()) - {n.name}
    {
      nodes := nodes - {n.name};
    }

    method DelNode(n: ClusterNode)
      requires Valid() && Known(n) && n != myself
      modifies this`nodes, allSlots, nodes.Values`mySlots, nodes.Values`numSlots, nodes.Values`role
      ensures Valid() && !Known(n) && Seen() == Forget(old(Seen()), n.name)
    {
      TakeSlotsAway(n);
      DetachSlaves(n);
      Unlink(n);
      ForgetInSteps(old(Peers()), n.name);
    }

    lemma ForgetInSteps(peers: map<Name, Peer>, gone: Name)
      ensures (map m | m in peers :: peers[m].(role := Orphaned(peers[m].role, gone))) - {gone}
           == map m | m in peers && m != gone :: peers[m].(role := Orphaned(peers[m].role, gone))
    {
    }

    ghost function SlotHolders(): set<Name>
      requires allSlots.Length == SLOTS
      reads allSlots
    {
      set j | 0 <= j < SLOTS && allSlots[j] != null :: allSlots[j].name
    }

    method TakeSlotsAway(n: ClusterNode)
      requires Valid() && Known(n)
      modifies allSlots, nodes.Values`mySlots, nodes.Values`numSlots
      ensures Valid() && Seen() == old(Seen()).(table := Moved(old(Table()), n.name, None))
      ensures n.name !in SlotHolders()
    {
      ghost var was := allSlots[..];
      for j := 0 to SLOTS
        invariant Valid()
        invariant forall k | 0 <= k < j :: allSlots[k] == if was[k] == n then null else was[k]
        invariant forall k | j <= k < SLOTS :: allSlots[k] == was[k]
      {
        if allSlots[j] == n {
          var ok := DelSlot(j);
        }
      }
      assert Table() == Moved(old(Table()), n.name, None);
    }

    // -------------------------------------------------------------- packets

    method LearnEpochs(sender: ClusterNode, h: Header)
      requires Valid() && Known(sender) && sender.name == h.sender
      modifies this`currentEpoch, sender`configEpoch
      ensures Valid() && Seen() == SeeHeader(old(Seen()), h)
    {
      if h.currentEpoch > currentEpoch { currentEpoch := h.currentEpoch; }
      var e := if h.configEpoch > sender.configEpoch then h.configEpoch else sender.configEpoch;
      SetNodeEpoch(sender, e);
    }

    method LearnRole(sender: ClusterNode, h: Header)
      requires Valid() && Known(sender) && sender.name == h.sender
      modifies allSlots, nodes.Values`mySlots, nodes.Values`numSlots, sender`role
      ensures Valid() && Seen() == TakeRole(old(Seen()), h)
    {
      if h.slaveOf.None? {
        SetNodeRole(sender, Master);
      } else {
        if sender.role.Master? {
          var deleted := DelNodeSlots(sender);
          SetNodeRole(sender, Slave(None));
        }
        if h.slaveOf.value in nodes {
          SetNodeRole(sender, Slave(h.slaveOf));
        }
      }
    }

    method IsDirty(sender: ClusterNode, h: Header) returns (dirty: bool)
      requires Valid() && Known(sender) && sender.name == h.sender
      ensures dirty == Dirty(Seen(), h)
    {
      var speaker := if sender.role.Master? then Some(sender.name) else sender.role.of;
      if speaker.None? || speaker.value !in nodes {
        return speaker.Some? && h.slots != {};
      }
      BitsAreSlots(nodes[speaker.value]);
      return nodes[speaker.value].mySlots != h.slots;
    }

    /** The first holder that the sender must be told about: it claims a slot that a greater epoch holds. */
    method FindNewer(sender: ClusterNode, h: Header) returns (about: Option<Name>)
      requires Valid() && Known(sender) && sender.name == h.sender
      ensures about.Some? ==> exists j: nat :: Outdated(Seen(), h, j) && Table()[j] == about
      ensures about.None? ==> forall j: nat :: !Outdated(Seen(), h, j)
    {
      for j := 0 to SLOTS
        invariant forall k: nat | k < j :: !Outdated(Seen(), h, k)
      {
        if j in h.slots && allSlots[j] != null && allSlots[j] != sender {
          assert Table()[j] == Some(allSlots[j].name) && Known(allSlots[j]);
          if allSlots[j].configEpoch > h.configEpoch {
            assert Outdated(Seen(), h, j);
            return Some(allSlots[j].name);
          }
        }
      }
      return None;
    }

    /** Takes the claim of a master, and finds out whether the sender must be sent an UPDATE. */
    method TakeClaim(sender: ClusterNode, h: Header) returns (about: Option<Name>)
      requires Valid() && Known(sender) && sender.name == h.sender
      modifies allSlots, nodes.Values`mySlots, nodes.Values`numSlots
      ensures Valid() && Seen() == TakeSlots(old(Seen()), h)
      ensures about.Some? ==> exists j: nat :: Outdated(Seen(), h, j) && Table()[j] == about
      ensures about.None? && Dirty(old(Seen()), h) ==> forall j: nat :: !Outdated(Seen(), h, j)
    {
      about := None;
      var dirty := IsDirty(sender, h);
      if sender.role.Master? && dirty {
        UpdateSlotsConfigWith(sender, h.configEpoch, h.slots);
      }
      if dirty {
        about := FindNewer(sender, h);
      }
    }

    method ResolveCollision(sender: ClusterNode, h: Header)
      requires Valid() && Known(sender) && sender.name == h.sender
      modifies this`currentEpoch, myself`configEpoch
      ensures Valid()
      ensures Seen() == if h.configEpoch == EpochOf(old(Seen()), myself.name)
                        then Repair(old(Seen()), h.sender) else old(Seen())
    {
      if myself.role.Master? && sender.role.Master? && h.configEpoch == myself.configEpoch {
        HandleConfigEpochCollision(sender);
      }
    }

    method ProcessPing(h: Header) returns (about: Option<Name>)
      requires Valid()
      modifies this`currentEpoch, nodes.Values`configEpoch, nodes.Values`role
      modifies allSlots, nodes.Values`mySlots, nodes.Values`numSlots
      ensures Valid() && Seen() == HandlePing(old(Seen()), h)
    {
      about := None;
      if h.sender !in nodes { return; }
      var sender := nodes[h.sender];
      LearnEpochs(sender, h);
      LearnRole(sender, h);
      about := TakeClaim(sender, h);
      ResolveCollision(sender, h);
    }

    method ProcessUpdate(h: Header, about: Name, epoch: nat, slots: set<nat>)
      requires Valid()
      modifies this`currentEpoch, nodes.Values`configEpoch, nodes.Values`role
      modifies allSlots, nodes.Values`mySlots, nodes.Values`numSlots
      ensures Valid() && Seen() == HandleUpdate(old(Seen()), h, about, epoch, slots)
    {
      if h.sender !in nodes { return; }
      LearnEpochs(nodes[h.sender], h);
      ghost var v := Seen();
      if about !in nodes || nodes[about].configEpoch >= epoch { return; }
      assert about in v.nodes && EpochOf(v, about) < epoch;
      SetNodeRole(nodes[about], Master);
      SetNodeEpoch(nodes[about], epoch);
      UpdateSlotsConfigWith(nodes[about], epoch, slots);
    }
  }
}
