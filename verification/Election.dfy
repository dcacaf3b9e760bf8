/**
 Failover elections: in every run, two slaves that win in the same epoch cannot both have counted only
 votes for that epoch; and as long as no vote arrives in the window between scheduling an election and
 requesting votes, every counted vote is one, so no epoch has two winners.
 */
module Election {
  import opened Names
  import opened ClusterView
  import opened ClusterBus
  import opened EpochBound

  // ---------------------------------------------------------------- the runs considered

  /** No election traffic yet: arbitrary bounded views, nothing voted, counted or won. */
  ghost predicate Start(s: Sys)
  {
    && Bounded(s)
    && s.net == {} && s.acks == {} && s.cast == {} && s.wins == {}
    && s.tally.Keys == s.views.Keys
    && forall n | n in s.views :: s.views[n].me == n && !s.views[n].auth.armed && s.tally[n] == {}
  }

  /** Wherever a vote is counted or a quorum computed, the voters the node sees are the set `all`. */
  ghost predicate SameVoters(s: Sys, steps: seq<Step>, all: set<Name>)
    decreases |steps|
  {
    steps != [] ==>
      && ((steps[0].DeliverAck? || steps[0].WinElection?) && Enabled(s, steps[0])
          ==> Voters(s.views[steps[0].n]) == all)
      && SameVoters(Apply(s, steps[0]), steps[1..], all)
  }

  /** The step counts a vote for an election that is scheduled but has not asked for votes yet. */
  ghost predicate IdleAck(s: Sys, st: Step)
  {
    && st.DeliverAck? && Enabled(s, st)
    && s.views[st.n].auth.armed && !s.views[st.n].auth.sent
    && Counts(SeeHeader(s.views[st.n], st.a.h), st.a.h)
  }

  ghost predicate NoIdleAcks(s: Sys, steps: seq<Step>)
    decreases |steps|
  {
    steps != [] ==> !IdleAck(s, steps[0]) && NoIdleAcks(Apply(s, steps[0]), steps[1..])
  }

  // ---------------------------------------------------------------- steps, as far as elections go

  ghost predicate Asking(v: View)
  {
    v.auth.armed && v.auth.sent
  }

  datatype Kind =
    | Quiet
    | Vote(p: Packet, a: Ack)
    | Count(a: Ack)
    | Clear
    | Ask(p: Packet)
    | Win

  /** The step from `s` to `t` changes only node `n`, and does to the election state what `k` says. */
  ghost predicate Move(s: Sys, t: Sys, n: Name, k: Kind)
  {
    && n in s.views && n in t.views && n in s.tally && n in t.tally
    && t.views == s.views[n := t.views[n]]
    && t.tally == s.tally[n := t.tally[n]]
    && var v, w := s.views[n], t.views[n];
       && OwnGrows(v, w)
       && (forall p | p in t.net && p.AuthRequest? :: p in s.net || (k.Ask? && p == k.p))
       && (!k.Vote? ==> t.cast == s.cast && t.acks <= s.acks)
       && (!k.Count? && !k.Clear? ==> t.tally[n] == s.tally[n])
       && (!k.Count? && !k.Clear? && !k.Ask? ==> w.auth == v.auth)
       && (!k.Win? ==> t.wins == s.wins)
       && match k
          case Quiet => true
          case Vote(p, a) =>
            && p in s.net && p.AuthRequest?
            && a.to == p.h.sender && a.h.sender == n && a.h.currentEpoch == p.h.currentEpoch
            && v.lastVoteEpoch < a.h.currentEpoch == w.lastVoteEpoch
            && t.cast == s.cast + {a} && t.acks == s.acks + {a}
          case Count(a) =>
            && a in s.acks && a !in t.acks && a.to == n
            && v.auth.epoch <= a.h.currentEpoch
            && t.tally[n] == s.tally[n] + {a}
            && w.auth == v.auth.(count := v.auth.count + 1)
          case Clear => t.tally[n] == {} && w.auth.count == 0 && !Asking(w)
          case Ask(p) =>
            && p.h.sender == n && p.h.currentEpoch == w.auth.epoch == w.currentEpoch > v.currentEpoch
            && v.auth.armed && !v.auth.sent && Asking(w) && w.auth.count == v.auth.count
          case Win =>
            && Asking(v)
            && t.wins == s.wins + {Victory(n, v.auth.epoch, s.tally[n])}
  }

  lemma LocalKeepsAuth(v: View, st: Step)
    requires BoundedView(v)
    ensures Local(v, st).me == v.me
    ensures !(st.DeliverAck? || st.ScheduleElection? || st.ExpireElection? || st.StartElection? || st.Promote?)
            ==> Local(v, st).auth == v.auth
  {
    match st
    case DeliverPing(n, p) => if p.h.sender in v.nodes { var u := PingShape(v, p.h); }
    case Command(n, c) => CommandGrows(v, c);
    case _ =>
  }

  /** A granted request is for the voter's current epoch, in which it has not voted. */
  lemma GrantedVote(v: View, h: Header, force: bool, rested: bool)
    requires BoundedView(v) && BoundedHeader(h)
    requires Grants(SeeHeader(v, h), h, force, rested)
    ensures var w := HandleAuthRequest(v, h, force, rested);
            && w.lastVoteEpoch == h.currentEpoch
            && v.lastVoteEpoch < h.currentEpoch
            && MakeHeader(w).currentEpoch == h.currentEpoch
            && MakeHeader(w).sender == v.me
  {
  }

  lemma CountedVote(v: View, h: Header)
    ensures SeeHeader(v, h).auth == v.auth
    ensures Counts(SeeHeader(v, h), h) ==> h.sender in Voters(v) && v.auth.epoch <= h.currentEpoch
    ensures HandleAck(v, h).auth
            == if Counts(SeeHeader(v, h), h) then v.auth.(count := v.auth.count + 1) else v.auth
  {
    var w := SeeHeader(v, h);
    assert IsVoter(w, h.sender) ==> IsVoter(v, h.sender);
  }

  lemma RequestMoves(s: Sys, st: Step) returns (k: Kind)
    requires Bounded(s) && Enabled(s, st) && s.views[st.n].me == st.n && st.DeliverRequest?
    ensures Move(s, Apply(s, st), st.n, k) && (k.Vote? || k.Quiet?)
  {
    var v := s.views[st.n];
    LocalGrows(v, st);
    if Grants(SeeHeader(v, st.p.h), st.p.h, st.p.force, st.rested) {
      GrantedVote(v, st.p.h, st.p.force, st.rested);
      k := Vote(st.p, Ack(MakeHeader(HandleAuthRequest(v, st.p.h, st.p.force, st.rested)), st.p.h.sender));
    } else {
      k := Quiet;
    }
  }

  lemma AckMoves(s: Sys, st: Step) returns (k: Kind)
    requires Bounded(s) && Enabled(s, st) && s.views[st.n].me == st.n && st.DeliverAck?
    ensures Move(s, Apply(s, st), st.n, k)
    ensures if Counts(SeeHeader(s.views[st.n], st.a.h), st.a.h) then k == Count(st.a) else k == Quiet
  {
    LocalGrows(s.views[st.n], st);
    CountedVote(s.views[st.n], st.a.h);
    k := if Counts(SeeHeader(s.views[st.n], st.a.h), st.a.h) then Count(st.a) else Quiet;
  }

  lemma CronMoves(s: Sys, st: Step) returns (k: Kind)
    requires Bounded(s) && Enabled(s, st) && s.views[st.n].me == st.n
    requires st.ScheduleElection? || st.ExpireElection? || st.Promote? || st.StartElection? || st.WinElection?
    ensures Move(s, Apply(s, st), st.n, k) && (k.Win? ==> st.WinElection?) && !k.Count?
    ensures k.Clear? <==> st.ScheduleElection? || st.ExpireElection? || st.Promote?
  {
    LocalGrows(s.views[st.n], st);
    k := if st.StartElection? then Ask(AuthRequest(MakeHeader(RequestVotes(s.views[st.n])), st.manual))
         else if st.WinElection? then Win else Clear;
  }

  lemma OtherMoves(s: Sys, st: Step)
    requires Bounded(s) && Enabled(s, st)
    requires !(st.ScheduleElection? || st.ExpireElection? || st.Promote? || st.StartElection? || st.WinElection?
               || st.DeliverAck? || st.DeliverRequest?)
    ensures Move(s, Apply(s, st), st.n, Quiet)
  {
    LocalGrows(s.views[st.n], st);
    LocalKeepsAuth(s.views[st.n], st);
  }

  lemma StepMoves(s: Sys, st: Step) returns (k: Kind)
    requires Bounded(s) && Enabled(s, st) && s.views[st.n].me == st.n
    ensures Move(s, Apply(s, st), st.n, k)
    ensures k.Win? ==> st.WinElection?
    ensures k.Clear? <==> st.ScheduleElection? || st.ExpireElection? || st.Promote?
    ensures k.Count? ==> st.DeliverAck? && k.a == st.a
    ensures k.Count? <==> st.DeliverAck? && Counts(SeeHeader(s.views[st.n], st.a.h), st.a.h)
  {
    match st
    case DeliverRequest(n, p, rested) => k := RequestMoves(s, st);
    case DeliverAck(n, a) => k := AckMoves(s, st);
    case ScheduleElection(n, manual) => k := CronMoves(s, st);
    case ExpireElection(n, manual) => k := CronMoves(s, st);
    case Promote(n) => k := CronMoves(s, st);
    case StartElection(n, manual) => k := CronMoves(s, st);
    case WinElection(n, manual) => k := CronMoves(s, st);
    case _ => OtherMoves(s, st); k := Quiet;
  }

  // ---------------------------------------------------------------- what every step keeps

  ghost predicate VoteOk(s: Sys, a: Ack)
  {
    && a.h.sender in s.views
    && a.h.currentEpoch <= s.views[a.h.sender].lastVoteEpoch
    && a.to in s.views
    && a.h.currentEpoch <= s.views[a.to].currentEpoch
    && (Asking(s.views[a.to]) ==> a.h.currentEpoch <= s.views[a.to].auth.epoch)
  }

  ghost predicate RequestOk(s: Sys, p: Packet)
  {
    && p.h.sender in s.views
    && p.h.currentEpoch <= s.views[p.h.sender].currentEpoch
    && (Asking(s.views[p.h.sender]) ==> p.h.currentEpoch <= s.views[p.h.sender].auth.epoch)
  }

  ghost predicate OneVotePerEpoch(cast: set<Ack>)
  {
    forall a, b | a in cast && b in cast && a.h.sender == b.h.sender && a.h.currentEpoch == b.h.currentEpoch :: a == b
  }

  ghost predicate TallyOk(s: Sys, n: Name)
    requires n in s.tally && n in s.views
  {
    && s.tally[n] <= s.cast
    && s.tally[n] !! s.acks
    && (s.views[n].auth.armed ==> |s.tally[n]| == s.views[n].auth.count)
    && forall a | a in s.tally[n] :: a.to == n
  }

  ghost predicate Voting(s: Sys)
  {
    && s.tally.Keys == s.views.Keys
    && s.acks <= s.cast
    && (forall p | p in s.net && p.AuthRequest? :: RequestOk(s, p))
    && (forall a | a in s.cast :: VoteOk(s, a))
    && OneVotePerEpoch(s.cast)
    && (forall n | n in s.views :: TallyOk(s, n))
  }

  lemma MoveKeepsRequests(s: Sys, t: Sys, n: Name, k: Kind)
    requires Voting(s) && Move(s, t, n, k)
    ensures forall p | p in t.net && p.AuthRequest? :: RequestOk(t, p)
  {
    forall p | p in t.net && p.AuthRequest? ensures RequestOk(t, p) {
      if p in s.net { assert RequestOk(s, p); }
    }
  }

  lemma MoveKeepsVotes(s: Sys, t: Sys, n: Name, k: Kind)
    requires Voting(s) && Move(s, t, n, k)
    ensures t.acks <= t.cast
    ensures forall a | a in t.cast :: VoteOk(t, a)
    ensures OneVotePerEpoch(t.cast)
  {
    if k.Vote? { assert RequestOk(s, k.p); }
    forall a | a in t.cast ensures VoteOk(t, a) {
      if a in s.cast { assert VoteOk(s, a); }
    }
    assert forall a | a in s.cast :: VoteOk(s, a);
  }

  lemma MoveKeepsTallies(s: Sys, t: Sys, n: Name, k: Kind)
    requires Voting(s) && Move(s, t, n, k)
    ensures t.tally.Keys == t.views.Keys
    ensures forall m | m in t.views :: TallyOk(t, m)
  {
    assert forall a | a in s.cast :: VoteOk(s, a);
    forall m | m in t.views ensures TallyOk(t, m) {
      assert TallyOk(s, m);
    }
  }

  lemma MoveKeepsVoting(s: Sys, t: Sys, n: Name, k: Kind)
    requires Voting(s) && Move(s, t, n, k)
    ensures Voting(t)
  {
    MoveKeepsRequests(s, t, n, k);
    MoveKeepsVotes(s, t, n, k);
    MoveKeepsTallies(s, t, n, k);
  }

  // ---------------------------------------------------------------- the winners

  ghost predicate Majority(q: set<Name>, all: set<Name>)
  {
    q <= all && |q| >= |all| / 2 + 1
  }

  lemma MajoritiesMeet(p: set<Name>, q: set<Name>, all: set<Name>) returns (x: Name)
    requires Majority(p, all) && Majority(q, all)
    ensures x in p && x in q
  {
    if p * q == {} {
      assert |p + q| == |p| + |q|;
      FitsIn(p + q, all);
      assert false;
    }
    x :| x in p * q;
  }

  lemma {:induction false} FitsIn(small: set<Name>, large: set<Name>)
    requires small <= large
    ensures |small| <= |large|
  {
    assert |large| == |small| + |large - small| by { assert large == small + (large - small); }
  }

  function Senders(acks: set<Ack>): set<Name>
  {
    set a | a in acks :: a.h.sender
  }

  /** Votes for one epoch come from as many nodes as there are votes. */
  lemma {:induction false} DistinctSenders(acks: set<Ack>, epoch: nat)
    requires OneVotePerEpoch(acks)
    requires forall a | a in acks :: a.h.currentEpoch == epoch
    ensures |Senders(acks)| == |acks|
  {
    if acks != {} {
      var a :| a in acks;
      DistinctSenders(acks - {a}, epoch);
      assert Senders(acks) == Senders(acks - {a}) + {a.h.sender};
      assert a.h.sender !in Senders(acks - {a});
    }
  }

  /** Every acknowledgement counted for the win was a vote for that very election. */
  ghost predicate Clean(w: Victory)
  {
    forall a | a in w.acks :: a.h.currentEpoch == w.epoch
  }

  ghost predicate WinOk(s: Sys, w: Victory, all: set<Name>)
  {
    && w.acks <= s.cast
    && (forall a | a in w.acks :: a.to == w.who)
    && Senders(w.acks) <= all
    && |w.acks| >= |all| / 2 + 1
  }

  ghost predicate WinsOk(s: Sys, all: set<Name>)
  {
    && (forall n | n in s.tally :: Senders(s.tally[n]) <= all)
    && (forall w | w in s.wins :: WinOk(s, w, all))
  }

  /** Two clean wins in one epoch have the same winner: their quorums share a voter. */
  lemma CleanWinsAgree(s: Sys, all: set<Name>, x: Victory, y: Victory)
    requires Voting(s) && WinsOk(s, all)
    requires x in s.wins && y in s.wins && x.epoch == y.epoch && Clean(x) && Clean(y)
    ensures x.who == y.who
  {
    assert WinOk(s, x, all) && WinOk(s, y, all);
    DistinctSenders(x.acks, x.epoch);
    DistinctSenders(y.acks, y.epoch);
    var voter := MajoritiesMeet(Senders(x.acks), Senders(y.acks), all);
    var a :| a in x.acks && a.h.sender == voter;
    var b :| b in y.acks && b.h.sender == voter;
    assert a == b;
  }

  lemma MoveKeepsWins(s: Sys, t: Sys, n: Name, k: Kind, all: set<Name>)
    requires Voting(s) && WinsOk(s, all) && Move(s, t, n, k)
    requires k.Count? ==> k.a.h.sender in all
    requires k.Win? ==> |s.tally[n]| >= |all| / 2 + 1
    ensures WinsOk(t, all)
  {
    assert TallyOk(s, n);
    if k.Count? {
      assert Senders(t.tally[n]) == Senders(s.tally[n]) + {k.a.h.sender};
    }
    forall w | w in t.wins ensures WinOk(t, w, all) {
      if w in s.wins { assert WinOk(s, w, all); }
    }
  }

  /** All invariants of a run with a fixed set of voters. */
  ghost predicate Sound(s: Sys, all: set<Name>)
  {
    Bounded(s) && Voting(s) && WinsOk(s, all) && forall n | n in s.views :: s.views[n].me == n
  }

  lemma EnabledStepKeepsVoting(s: Sys, st: Step, all: set<Name>)
    requires Sound(s, all) && Enabled(s, st)
    requires st.DeliverAck? || st.WinElection? ==> Voters(s.views[st.n]) == all
    ensures Voting(Apply(s, st)) && WinsOk(Apply(s, st), all)
    ensures forall n | n in Apply(s, st).views :: Apply(s, st).views[n].me == n
  {
    var k := StepMoves(s, st);
    if k.Count? { CountedVote(s.views[st.n], st.a.h); }
    assert TallyOk(s, st.n);
    MoveKeepsVoting(s, Apply(s, st), st.n, k);
    MoveKeepsWins(s, Apply(s, st), st.n, k, all);
  }

  lemma StepKeepsSound(s: Sys, st: Step, all: set<Name>)
    requires Sound(s, all)
    requires (st.DeliverAck? || st.WinElection?) && Enabled(s, st) ==> Voters(s.views[st.n]) == all
    ensures Sound(Apply(s, st), all)
  {
    ApplyKeepsBound(s, st);
    if Enabled(s, st) { EnabledStepKeepsVoting(s, st, all); }
  }

  lemma {:induction false} RunKeepsSound(s: Sys, steps: seq<Step>, all: set<Name>)
    requires Sound(s, all) && SameVoters(s, steps, all)
    ensures Sound(Run(s, steps), all)
    decreases |steps|
  {
    if steps != [] {
      StepKeepsSound(s, steps[0], all);
      RunKeepsSound(Apply(s, steps[0]), steps[1..], all);
    }
  }

  lemma StartIsSound(s: Sys, all: set<Name>)
    requires Start(s)
    ensures Sound(s, all)
  {
  }

  /**
   In every run with a fixed set of voters, if two slaves win in the same epoch then at least one of
   them counted a vote that was not cast for that epoch.
   */
  lemma TwoWinnersNeedAStaleVote(s: Sys, steps: seq<Step>, all: set<Name>, x: Victory, y: Victory)
    requires Start(s) && SameVoters(s, steps, all)
    requires x in Run(s, steps).wins && y in Run(s, steps).wins && x.epoch == y.epoch && x.who != y.who
    ensures exists a :: a in x.acks + y.acks && a.h.currentEpoch != x.epoch
  {
    StartIsSound(s, all);
    RunKeepsSound(s, steps, all);
    if Clean(x) && Clean(y) {
      CleanWinsAgree(Run(s, steps), all, x, y);
      assert false;
    }
    if a :| a in x.acks && a.h.currentEpoch != x.epoch {
      assert a in x.acks + y.acks;
    } else {
      var b :| b in y.acks && b.h.currentEpoch != y.epoch;
      assert b in x.acks + y.acks;
    }
  }

  // ---------------------------------------------------------------- when every counted vote is for the election

  /** Once votes are requested, exactly votes for the requested epoch are in the tally. */
  ghost predicate Fresh(s: Sys)
  {
    && (forall n | n in s.views && n in s.tally && s.views[n].auth.armed ::
          if s.views[n].auth.sent
          then forall a | a in s.tally[n] :: a.h.currentEpoch == s.views[n].auth.epoch
          else s.tally[n] == {})
    && (forall w | w in s.wins :: Clean(w))
  }

  lemma MoveKeepsFresh(s: Sys, t: Sys, n: Name, k: Kind)
    requires Voting(s) && Fresh(s) && Move(s, t, n, k)
    requires k.Count? && s.views[n].auth.armed ==> s.views[n].auth.sent
    ensures Fresh(t)
  {
    if k.Count? { assert VoteOk(s, k.a); }
  }

  lemma {:induction false} RunKeepsFresh(s: Sys, steps: seq<Step>, all: set<Name>)
    requires Sound(s, all) && SameVoters(s, steps, all) && NoIdleAcks(s, steps) && Fresh(s)
    ensures Fresh(Run(s, steps))
    decreases |steps|
  {
    if steps != [] {
      var t := Apply(s, steps[0]);
      StepKeepsSound(s, steps[0], all);
      if Enabled(s, steps[0]) {
        var k := StepMoves(s, steps[0]);
        MoveKeepsFresh(s, t, steps[0].n, k);
      }
      RunKeepsFresh(t, steps[1..], all);
    }
  }

  /** Election safety: if no vote arrives in the idle window, no epoch has two winners. */
  lemma AtMostOneWinnerPerEpoch(s: Sys, steps: seq<Step>, all: set<Name>)
    requires Start(s) && SameVoters(s, steps, all) && NoIdleAcks(s, steps)
    ensures forall x, y | x in Run(s, steps).wins && y in Run(s, steps).wins && x.epoch == y.epoch :: x.who == y.who
  {
    StartIsSound(s, all);
    RunKeepsSound(s, steps, all);
    RunKeepsFresh(s, steps, all);
    var t := Run(s, steps);
    forall x, y | x in t.wins && y in t.wins && x.epoch == y.epoch ensures x.who == y.who {
      CleanWinsAgree(t, all, x, y);
    }
  }
}
