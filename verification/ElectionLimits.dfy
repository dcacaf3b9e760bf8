/**
 Where the election theorem stops: exactly which wins counted a vote for another epoch, a run in which
 such votes elect two slaves in one epoch, and a voter that votes twice because it restarted.
 */
module ElectionLimits {
  import opened Names
  import opened ClusterView
  import opened ClusterBus
  import opened EpochBound
  import opened Election

  // ---------------------------------------------------------------- stale votes are the idle votes

  /** Whether node `n` counted a vote in the idle window since it last cleared its counter. */
  ghost predicate IdleSince(s: Sys, steps: seq<Step>, n: Name, already: bool)
    decreases |steps|
  {
    if steps == [] then already
    else IdleSince(Apply(s, steps[0]), steps[1..], n,
                   !Clears(s, steps[0], n) && (already || (steps[0].n == n && IdleAck(s, steps[0]))))
  }

  ghost predicate Clears(s: Sys, st: Step, n: Name)
  {
    st.n == n && Enabled(s, st) && (st.ScheduleElection? || st.ExpireElection? || st.Promote?)
  }

  /** The tally holds a vote that is older than the election the node asks, or will ask, votes for. */
  ghost predicate Tainted(s: Sys, n: Name)
  {
    && n in s.views && n in s.tally && s.views[n].auth.armed
    && exists a :: a in s.tally[n] && (s.views[n].auth.sent ==> a.h.currentEpoch < s.views[n].auth.epoch)
  }

  lemma MoveTaints(t: Sys, u: Sys, n: Name, k: Kind)
    requires Voting(t) && Move(t, u, n, k)
    requires u.views[n].auth.armed
    ensures k.Clear? ==> !Tainted(u, n)
    ensures !k.Clear? ==> t.views[n].auth.armed
                          && (Tainted(u, n) <==> Tainted(t, n) || (k.Count? && !t.views[n].auth.sent))
  {
    assert TallyOk(t, n);
    forall a | a in t.tally[n] ensures VoteOk(t, a) && a.to == n { }
  }

  lemma StepTaints(t: Sys, st: Step, n: Name, all: set<Name>)
    requires Sound(t, all) && n in t.views && Apply(t, st).views[n].auth.armed
    ensures Clears(t, st, n) ==> !Tainted(Apply(t, st), n)
    ensures !Clears(t, st, n) ==> t.views[n].auth.armed
    ensures !Clears(t, st, n) ==> (Tainted(Apply(t, st), n) <==> Tainted(t, n) || (st.n == n && IdleAck(t, st)))
  {
    if Enabled(t, st) {
      var k := StepMoves(t, st);
      if st.n == n {
        MoveTaints(t, Apply(t, st), n, k);
      }
    }
  }

  /** A node's tally holds a stale vote exactly if a vote was counted in the idle window. */
  lemma {:induction false} StaleExactlyIfIdle(s: Sys, steps: seq<Step>, all: set<Name>, n: Name, already: bool)
    requires Sound(s, all) && SameVoters(s, steps, all) && n in s.views
    requires s.views[n].auth.armed ==> (Tainted(s, n) <==> already)
    ensures n in Run(s, steps).views
    ensures Run(s, steps).views[n].auth.armed ==> (Tainted(Run(s, steps), n) <==> IdleSince(s, steps, n, already))
    decreases |steps|
  {
    if steps != [] {
      var st, t := steps[0], Apply(s, steps[0]);
      StepKeepsSound(s, st, all);
      if t.views[n].auth.armed { StepTaints(s, st, n, all); }
      StaleExactlyIfIdle(t, steps[1..], all, n,
                         !Clears(s, st, n) && (already || (st.n == n && IdleAck(s, st))));
    }
  }

  /** A win counted only votes for its own epoch if and only if no vote was counted in the idle window. */
  lemma CleanExactlyIfNotIdle(s: Sys, steps: seq<Step>, all: set<Name>, n: Name, manual: bool)
    requires Start(s) && SameVoters(s, steps, all) && n in s.views
    requires Enabled(Run(s, steps), WinElection(n, manual))
    ensures var t := Run(s, steps);
            Clean(Victory(n, t.views[n].auth.epoch, t.tally[n])) <==> !IdleSince(s, steps, n, false)
  {
    StartIsSound(s, all);
    StaleExactlyIfIdle(s, steps, all, n, false);
    RunKeepsSound(s, steps, all);
    var t := Run(s, steps);
    assert TallyOk(t, n);
    forall a | a in t.tally[n] ensures a.h.currentEpoch <= t.views[n].auth.epoch {
      assert VoteOk(t, a);
    }
  }

  // ---------------------------------------------------------------- a run with two winners

  lemma NothingNew(v: View, h: Header)
    requires h.sender in v.nodes && h.configEpoch <= EpochOf(v, h.sender)
    ensures SeeHeader(v, h) == v.(currentEpoch := Max(v.currentEpoch, h.currentEpoch))
  {
    assert v.nodes[h.sender := v.nodes[h.sender]] == v.nodes;
  }

  lemma ApplySchedule(s: Sys, n: Name)
    requires n in s.views && n in s.tally && MayFailOver(s.views[n], true)
    ensures Apply(s, ScheduleElection(n, true)) == s.(views := s.views[n := Schedule(s.views[n])], tally := s.tally[n := {}])
    ensures Apply(s, ExpireElection(n, true)) == s.(views := s.views[n := ResetFailover(s.views[n])], tally := s.tally[n := {}])
  {
  }

  lemma ApplyAsk(s: Sys, n: Name)
    requires n in s.views && n in s.tally && MayFailOver(s.views[n], true)
    requires s.views[n].auth.armed && !s.views[n].auth.sent
    ensures Apply(s, StartElection(n, true))
            == s.(views := s.views[n := RequestVotes(s.views[n])],
                  net := s.net + {AuthRequest(MakeHeader(RequestVotes(s.views[n])), true)})
  {
    assert s.tally[n := s.tally[n]] == s.tally;
  }

  lemma ApplyVote(s: Sys, n: Name, p: Packet)
    requires n in s.views && n in s.tally && p in s.net && p.AuthRequest? && p.h.sender != n
    requires Grants(SeeHeader(s.views[n], p.h), p.h, p.force, true)
    ensures var w := SeeHeader(s.views[n], p.h).(lastVoteEpoch := SeeHeader(s.views[n], p.h).currentEpoch);
            var a := Ack(MakeHeader(w), p.h.sender);
            Apply(s, DeliverRequest(n, p, true)) == s.(views := s.views[n := w], acks := s.acks + {a}, cast := s.cast + {a})
  {
    assert s.tally[n := s.tally[n]] == s.tally;
  }

  lemma ApplyCount(s: Sys, n: Name, a: Ack)
    requires n in s.views && n in s.tally && a in s.acks && a.to == n
    requires var v := s.views[n]; SeeHeader(v, a.h) == v && Counts(v, a.h)
    ensures var v := s.views[n];
            Apply(s, DeliverAck(n, a))
            == s.(views := s.views[n := v.(auth := v.auth.(count := v.auth.count + 1))],
                  acks := s.acks - {a}, tally := s.tally[n := s.tally[n] + {a}])
  {
  }

  lemma ApplyWin(s: Sys, n: Name)
    requires n in s.views && n in s.tally && MayFailOver(s.views[n], true) && Wins(s.views[n])
    ensures Apply(s, WinElection(n, true)).wins == s.wins + {Victory(n, s.views[n].auth.epoch, s.tally[n])}
    ensures Apply(s, WinElection(n, true)).views == s.views[n := TakeElectionEpoch(s.views[n])]
    ensures Apply(s, WinElection(n, true)).net == s.net
    ensures Apply(s, WinElection(n, true)).tally == s.tally
  {
    assert s.tally[n := s.tally[n]] == s.tally;
  }

  /** Masters `a`, `b` and `c` serve one slot each, slaves `x` and `y` follow `a` and `b`; all epochs are zero. */
  datatype Setting = Setting(a: Name, b: Name, c: Name, x: Name, y: Name, nodes: map<Name, Peer>, table: Table)

  ghost predicate Proper(g: Setting)
  {
    && g.a != g.b && g.a != g.c && g.b != g.c && g.x != g.y
    && g.x !in {g.a, g.b, g.c} && g.y !in {g.a, g.b, g.c}
    && g.nodes == map[g.a := Peer(0, Master, false, false), g.b := Peer(0, Master, false, false),
                      g.c := Peer(0, Master, false, false),
                      g.x := Peer(0, Slave(Some(g.a)), false, false), g.y := Peer(0, Slave(Some(g.b)), false, false)]
    && |g.table| >= 3 && g.table[0] == Some(g.a) && g.table[1] == Some(g.b) && g.table[2] == Some(g.c)
  }

  ghost predicate In(v: View, g: Setting)
  {
    v.nodes == g.nodes && v.table == g.table
  }

  lemma SettingFacts(v: View, g: Setting)
    requires Proper(g) && In(v, g)
    ensures SlotsOf(v.table, g.a) != {} && SlotsOf(v.table, g.b) != {} && SlotsOf(v.table, g.c) != {}
    ensures v.me in {g.x, g.y} ==> MayFailOver(v, true) && MakeHeader(v).slaveOf.Some?
    ensures v.me in g.nodes ==> MakeHeader(v).configEpoch == 0
    ensures MakeHeader(v).sender == v.me && MakeHeader(v).currentEpoch == v.currentEpoch
  {
    assert 0 in SlotsOf(v.table, g.a) && 1 in SlotsOf(v.table, g.b) && 2 in SlotsOf(v.table, g.c);
  }

  lemma SettingVoters(v: View, g: Setting)
    requires Proper(g) && In(v, g)
    ensures Voters(v) == {g.a, g.b, g.c} && Quorum(v) == 2
  {
    SettingFacts(v, g);
    assert Voters(v) == {g.a, g.b, g.c};
  }

  lemma GrantFacts(v: View, g: Setting, h: Header)
    requires Proper(g) && In(v, g) && v.me in {g.a, g.b, g.c} && h.sender in {g.x, g.y}
    requires h.configEpoch == 0 && h.slaveOf.Some? && v.currentEpoch <= h.currentEpoch && v.lastVoteEpoch < h.currentEpoch
    ensures SeeHeader(v, h) == v.(currentEpoch := h.currentEpoch)
    ensures Grants(SeeHeader(v, h), h, true, true)
  {
    SettingFacts(v, g);
    NothingNew(v, h);
  }

  lemma CountFacts(v: View, g: Setting, h: Header)
    requires Proper(g) && In(v, g) && h.sender in {g.a, g.b, g.c}
    requires h.configEpoch == 0 && h.currentEpoch <= v.currentEpoch && v.auth.epoch <= h.currentEpoch
    ensures SeeHeader(v, h) == v && Counts(v, h)
  {
    SettingFacts(v, g);
    NothingNew(v, h);
  }

  /** `t` is where the steps `r` lead from `s`, and every node that counts votes sees the voters `all`. */
  ghost predicate Reaches(s: Sys, r: seq<Step>, t: Sys, all: set<Name>)
  {
    Run(s, r) == t && SameVoters(s, r, all)
  }

  lemma {:induction false} Extend(s: Sys, r: seq<Step>, t: Sys, st: Step, all: set<Name>)
    requires Reaches(s, r, t, all)
    requires (st.DeliverAck? || st.WinElection?) && Enabled(t, st) ==> Voters(t.views[st.n]) == all
    ensures Reaches(s, r + [st], Apply(t, st), all)
    decreases |r|
  {
    if r == [] {
      assert [st][1..] == [];
      assert Run(s, [st]) == Run(Apply(s, st), [st][1..]);
      assert SameVoters(Apply(s, st), [st][1..], all);
    } else {
      assert (r + [st])[1..] == r[1..] + [st];
      Extend(Apply(s, r[0]), r[1..], t, st, all);
    }
  }

  lemma Scheduled(s: Sys, r: seq<Step>, t: Sys, g: Setting, n: Name, all: set<Name>) returns (r': seq<Step>, t': Sys)
    requires Reaches(s, r, t, all) && Proper(g) && n in {g.x, g.y}
    requires n in t.views && n in t.tally && In(t.views[n], g) && t.views[n].me == n
    ensures Reaches(s, r', t', all)
    ensures t' == t.(views := t.views[n := Schedule(t.views[n])], tally := t.tally[n := {}])
  {
    SettingFacts(t.views[n], g);
    ApplySchedule(t, n);
    r', t' := r + [ScheduleElection(n, true)], Apply(t, ScheduleElection(n, true));
    Extend(s, r, t, ScheduleElection(n, true), all);
  }

  lemma Expired(s: Sys, r: seq<Step>, t: Sys, g: Setting, n: Name, all: set<Name>) returns (r': seq<Step>, t': Sys)
    requires Reaches(s, r, t, all) && Proper(g) && n in {g.x, g.y}
    requires n in t.views && n in t.tally && In(t.views[n], g) && t.views[n].me == n
    ensures Reaches(s, r', t', all)
    ensures t' == t.(views := t.views[n := ResetFailover(t.views[n])], tally := t.tally[n := {}])
  {
    SettingFacts(t.views[n], g);
    ApplySchedule(t, n);
    r', t' := r + [ExpireElection(n, true)], Apply(t, ExpireElection(n, true));
    Extend(s, r, t, ExpireElection(n, true), all);
  }

  ghost predicate IsAsk(p: Packet, n: Name, epoch: nat)
  {
    p.AuthRequest? && p.force && p.h.sender == n && p.h.currentEpoch == epoch && p.h.configEpoch == 0 && p.h.slaveOf.Some?
  }

  lemma Asked(s: Sys, r: seq<Step>, t: Sys, g: Setting, n: Name, all: set<Name>)
    returns (r': seq<Step>, t': Sys, p: Packet)
    requires Reaches(s, r, t, all) && Proper(g) && n in {g.x, g.y}
    requires n in t.views && n in t.tally && In(t.views[n], g) && t.views[n].me == n
    requires t.views[n].auth.armed && !t.views[n].auth.sent
    ensures Reaches(s, r', t', all)
    ensures t' == t.(views := t.views[n := RequestVotes(t.views[n])], net := t.net + {p})
    ensures IsAsk(p, n, t.views[n].currentEpoch + 1)
  {
    SettingFacts(t.views[n], g);
    SettingFacts(RequestVotes(t.views[n]), g);
    ApplyAsk(t, n);
    p := AuthRequest(MakeHeader(RequestVotes(t.views[n])), true);
    r', t' := r + [StartElection(n, true)], Apply(t, StartElection(n, true));
    Extend(s, r, t, StartElection(n, true), all);
  }

  ghost predicate IsVote(a: Ack, v: Name, n: Name, epoch: nat)
  {
    a.to == n && a.h.sender == v && a.h.currentEpoch == epoch && a.h.configEpoch == 0
  }

  lemma Voted(s: Sys, r: seq<Step>, t: Sys, g: Setting, v: Name, p: Packet, all: set<Name>)
    returns (r': seq<Step>, t': Sys, a: Ack)
    requires Reaches(s, r, t, all) && Proper(g) && v in {g.a, g.b, g.c}
    requires v in t.views && v in t.tally && In(t.views[v], g) && t.views[v].me == v
    requires p in t.net && p.h.sender in {g.x, g.y} && IsAsk(p, p.h.sender, p.h.currentEpoch)
    requires t.views[v].currentEpoch <= p.h.currentEpoch && t.views[v].lastVoteEpoch < p.h.currentEpoch
    ensures Reaches(s, r', t', all)
    ensures IsVote(a, v, p.h.sender, p.h.currentEpoch)
    ensures t' == t.(views := t.views[v := t.views[v].(currentEpoch := p.h.currentEpoch, lastVoteEpoch := p.h.currentEpoch)],
                     acks := t.acks + {a}, cast := t.cast + {a})
  {
    GrantFacts(t.views[v], g, p.h);
    ApplyVote(t, v, p);
    var w := t.views[v].(currentEpoch := p.h.currentEpoch, lastVoteEpoch := p.h.currentEpoch);
    SettingFacts(w, g);
    a := Ack(MakeHeader(w), p.h.sender);
    r', t' := r + [DeliverRequest(v, p, true)], Apply(t, DeliverRequest(v, p, true));
    Extend(s, r, t, DeliverRequest(v, p, true), all);
  }

  lemma Counted(s: Sys, r: seq<Step>, t: Sys, g: Setting, n: Name, a: Ack, all: set<Name>)
    returns (r': seq<Step>, t': Sys)
    requires Reaches(s, r, t, all) && Proper(g) && all == {g.a, g.b, g.c}
    requires n in t.views && n in t.tally && In(t.views[n], g) && t.views[n].me == n
    requires a in t.acks && IsVote(a, a.h.sender, n, a.h.currentEpoch) && a.h.sender in all
    requires a.h.currentEpoch <= t.views[n].currentEpoch && t.views[n].auth.epoch <= a.h.currentEpoch
    ensures Reaches(s, r', t', all)
    ensures t' == t.(views := t.views[n := t.views[n].(auth := t.views[n].auth.(count := t.views[n].auth.count + 1))],
                     acks := t.acks - {a}, tally := t.tally[n := t.tally[n] + {a}])
  {
    CountFacts(t.views[n], g, a.h);
    ApplyCount(t, n, a);
    SettingVoters(t.views[n], g);
    r', t' := r + [DeliverAck(n, a)], Apply(t, DeliverAck(n, a));
    Extend(s, r, t, DeliverAck(n, a), all);
  }

  lemma HasWon(s: Sys, r: seq<Step>, t: Sys, g: Setting, n: Name, all: set<Name>) returns (r': seq<Step>, t': Sys)
    requires Reaches(s, r, t, all) && Proper(g) && all == {g.a, g.b, g.c} && n in {g.x, g.y}
    requires n in t.views && n in t.tally && In(t.views[n], g) && t.views[n].me == n
    requires Asking(t.views[n]) && t.views[n].auth.count >= 2
    ensures Reaches(s, r', t', all)
    ensures t'.wins == t.wins + {Victory(n, t.views[n].auth.epoch, t.tally[n])}
    ensures t'.net == t.net && t'.tally == t.tally
    ensures t'.views == t.views[n := TakeElectionEpoch(t.views[n])]
  {
    SettingFacts(t.views[n], g);
    SettingVoters(t.views[n], g);
    ApplyWin(t, n);
    r', t' := r + [WinElection(n, true)], Apply(t, WinElection(n, true));
    Extend(s, r, t, WinElection(n, true), all);
  }

  function Resting(g: Setting, n: Name): View
  {
    View(n, if n == g.y then 1 else 0, 0, g.nodes, g.table, Auth(0, 0, false, false))
  }

  function Resting5(g: Setting): Sys
  {
    Sys(map n | n in g.nodes :: Resting(g, n), {}, {}, {}, map n | n in g.nodes :: {}, {})
  }

  /** Slave `x` counts the vote `a` cast for its expired election, and a second vote of `a` for the new one. */
  lemma FirstWin(s: Sys, g: Setting, all: set<Name>) returns (r: seq<Step>, t: Sys)
    requires Proper(g) && all == {g.a, g.b, g.c} && s == Resting5(g)
    ensures Reaches(s, r, t, all)
    ensures exists w :: w in t.wins && w.who == g.x && w.epoch == 2
    ensures g.b in t.views && g.c in t.views && g.y in t.views
    ensures t.views[g.b] == Resting(g, g.b) && t.views[g.c] == Resting(g, g.c) && t.views[g.y] == Resting(g, g.y)
    ensures t.tally.Keys == g.nodes.Keys
  {
    r, t := [], s;
    var p, q, u, v;
    r, t := Scheduled(s, r, t, g, g.x, all);
    r, t, p := Asked(s, r, t, g, g.x, all);
    r, t, u := Voted(s, r, t, g, g.a, p, all);
    r, t := Expired(s, r, t, g, g.x, all);
    r, t := Scheduled(s, r, t, g, g.x, all);
    r, t := Counted(s, r, t, g, g.x, u, all);
    r, t, q := Asked(s, r, t, g, g.x, all);
    r, t, v := Voted(s, r, t, g, g.a, q, all);
    r, t := Counted(s, r, t, g, g.x, v, all);
    ghost var before := t;
    r, t := HasWon(s, r, t, g, g.x, all);
    assert Victory(g.x, before.views[g.x].auth.epoch, before.tally[g.x]) in t.wins;
  }

  /** Slave `y` is elected in the same epoch by `b` and `c`, which have not voted in it. */
  lemma SecondWin(s: Sys, r0: seq<Step>, t0: Sys, g: Setting, all: set<Name>) returns (r: seq<Step>, t: Sys)
    requires Proper(g) && all == {g.a, g.b, g.c} && Reaches(s, r0, t0, all)
    requires g.b in t0.views && g.c in t0.views && g.y in t0.views && t0.tally.Keys == g.nodes.Keys
    requires t0.views[g.b] == Resting(g, g.b) && t0.views[g.c] == Resting(g, g.c) && t0.views[g.y] == Resting(g, g.y)
    ensures Reaches(s, r, t, all)
    ensures t0.wins <= t.wins && exists w :: w in t.wins && w.who == g.y && w.epoch == 2
  {
    r, t := r0, t0;
    var p, u, v;
    r, t := Scheduled(s, r, t, g, g.y, all);
    r, t, p := Asked(s, r, t, g, g.y, all);
    r, t, u := Voted(s, r, t, g, g.b, p, all);
    r, t, v := Voted(s, r, t, g, g.c, p, all);
    r, t := Counted(s, r, t, g, g.y, u, all);
    r, t := Counted(s, r, t, g, g.y, v, all);
    ghost var before := t;
    r, t := HasWon(s, r, t, g, g.y, all);
    assert Victory(g.y, before.views[g.y].auth.epoch, before.tally[g.y]) in t.wins;
  }

  lemma RestingStarts(g: Setting)
    requires Proper(g)
    ensures Start(Resting5(g))
  {
  }

  /**
   Without the condition on idle votes the theorem fails: with three voters there is a run with a fixed
   set of voters in which two slaves win in epoch 2.
   */
  lemma IdleVotesElectTwo(g: Setting) returns (s: Sys, r: seq<Step>)
    requires Proper(g)
    ensures Start(s) && SameVoters(s, r, {g.a, g.b, g.c})
    ensures exists x, y :: x in Run(s, r).wins && y in Run(s, r).wins && x.epoch == y.epoch == 2 && x.who != y.who
  {
    s := Resting5(g);
    RestingStarts(g);
    var t, t0;
    r, t0 := FirstWin(s, g, {g.a, g.b, g.c});
    r, t := SecondWin(s, r, t0, g, {g.a, g.b, g.c});
  }

  // ---------------------------------------------------------------- a restart forgets the vote

  /** A restarted node reloads its nodes, takes the greatest known config epoch, and has not voted. */
  function Restarted(v: View, greatest: nat): View
  {
    v.(currentEpoch := greatest, lastVoteEpoch := 0, auth := Auth(0, 0, false, false))
  }

  /** A voter that restarts between two requests for the same epoch grants both. */
  lemma RestartVotesTwice(g: Setting, v: View, first: Header, second: Header)
    requires Proper(g) && In(v, g) && v.me == g.c && v.lastVoteEpoch < first.currentEpoch
    requires first.sender == g.x && second.sender == g.y && first.slaveOf.Some? && second.slaveOf.Some?
    requires first.configEpoch == second.configEpoch == 0
    requires v.currentEpoch <= first.currentEpoch == second.currentEpoch
    ensures Grants(SeeHeader(v, first), first, true, true)
    ensures var w := HandleAuthRequest(v, first, true, true);
            && !Grants(SeeHeader(w, second), second, true, true)
            && Grants(SeeHeader(Restarted(w, 0), second), second, true, true)
  {
    GrantFacts(v, g, first);
    GrantFacts(Restarted(HandleAuthRequest(v, first, true, true), 0), g, second);
  }
}
