/** The epochs a set of named masters has had, and how many there can be. */
module EpochHistory {
  import opened Names

  /** The epochs each master has had, and the one it has now. */
  datatype Past = Past(had: map<Name, set<nat>>, now: map<Name, nat>)

  function Above(masters: set<Name>, n: Name): set<Name>
  {
    set m | m in masters && Less(n, m)
  }

  function Pow2(k: nat): nat
  {
    if k == 0 then 1 else 2 * Pow2(k - 1)
  }

  ghost function Union(had: map<Name, set<nat>>, names: set<Name>): set<nat>
  {
    set m, e | m in names && m in had && e in had[m] :: e
  }

  lemma UnionGrows(had: map<Name, set<nat>>, had': map<Name, set<nat>>, names: set<Name>)
    requires had.Keys <= had'.Keys && forall m | m in had :: had[m] <= had'[m]
    ensures Union(had, names) <= Union(had', names)
  {
    forall e | e in Union(had, names) ensures e in Union(had', names) {
      var m :| m in names && m in had && e in had[m];
      assert m in had' && e in had'[m];
    }
  }

  lemma UnionSplits(had: map<Name, set<nat>>, names: set<Name>, m: Name)
    requires m in names && m in had
    ensures Union(had, names) == Union(had, names - {m}) + had[m]
  {
    forall e | e in Union(had, names) ensures e in Union(had, names - {m}) + had[m] {
      var k :| k in names && k in had && e in had[k];
      if k != m { assert k in names - {m}; }
    }
    UnionShrinks(had, names - {m}, names);
  }

  lemma UnionShrinks(had: map<Name, set<nat>>, fewer: set<Name>, names: set<Name>)
    requires fewer <= names
    ensures Union(had, fewer) <= Union(had, names)
  {
  }

  ghost predicate EntryOk(h: Past, masters: set<Name>, n: Name)
    requires n in h.had && n in h.now
  {
    && h.now[n] in h.had[n]
    && (forall e | e in h.had[n] :: e <= h.now[n])
    && h.had[n] - {h.now[n]} <= Union(h.had, Above(masters, n))
  }

  /** The current epoch is the greatest, and each earlier one was also had by a larger-named master. */
  ghost predicate Explained(h: Past, masters: set<Name>)
  {
    && h.had.Keys == masters && h.now.Keys == masters
    && forall n {:trigger EntryOk(h, masters, n)} | n in masters :: EntryOk(h, masters, n)
  }

  function Record(h: Past, n: Name, e: nat): Past
    requires n in h.had
  {
    Past(h.had[n := h.had[n] + {e}], h.now[n := e])
  }

  /** A master may take a higher epoch once a larger-named master has had its present one. */
  lemma RecordKeepsExplained(h: Past, masters: set<Name>, n: Name, e: nat, m: Name)
    requires Explained(h, masters) && n in masters && e >= h.now[n]
    requires EntryOk(h, masters, n)
    requires e != h.now[n] ==> m in masters && Less(n, m) && h.now[n] in h.had[m]
    ensures Explained(Record(h, n, e), masters)
  {
    var h' := Record(h, n, e);
    if e != h.now[n] { assert m in Above(masters, n); }
    forall k | k in masters ensures EntryOk(h', masters, k) {
      assert EntryOk(h, masters, k);
      UnionGrows(h.had, h'.had, Above(masters, k));
    }
  }

  lemma {:induction false} SmallestName(names: set<Name>) returns (m: Name)
    requires names != {}
    ensures m in names && forall x | x in names :: x == m || Less(m, x)
    decreases |names|
  {
    var a :| a in names;
    if names == {a} {
      m := a;
    } else {
      var b := SmallestName(names - {a});
      LessIsTotal(a, b);
      if Less(a, b) {
        m := a;
        forall x | x in names - {a} ensures Less(a, x) {
          if x != b { LessIsTransitive(a, b, x); }
        }
      } else {
        m := b;
      }
    }
  }

  ghost predicate UpwardClosed(names: set<Name>, masters: set<Name>)
  {
    names <= masters && forall x, y | x in names && y in masters && Less(x, y) :: y in names
  }

  lemma AboveIsUpwardClosed(masters: set<Name>, n: Name)
    ensures UpwardClosed(Above(masters, n), masters)
  {
    forall x, y | x in Above(masters, n) && y in masters && Less(x, y) ensures y in Above(masters, n) {
      LessIsTransitive(n, x, y);
    }
  }

  lemma WithoutSmallest(names: set<Name>, masters: set<Name>, m: Name)
    requires UpwardClosed(names, masters) && m in names && forall x | x in names :: x == m || Less(m, x)
    ensures names - {m} == Above(masters, m)
  {
    LessIsTotal(m, m);
  }

  /** The masters of an upward closed set have had fewer than 2^size epochs between them. */
  lemma {:induction false} UnionIsSmall(h: Past, masters: set<Name>, names: set<Name>)
    requires Explained(h, masters) && UpwardClosed(names, masters)
    ensures |Union(h.had, names)| <= Pow2(|names|) - 1
    decreases |names|
  {
    if names == {} {
      assert Union(h.had, names) == {};
    } else {
      var m := SmallestName(names);
      var rest := names - {m};
      WithoutSmallest(names, masters, m);
      AboveIsUpwardClosed(masters, m);
      UnionIsSmall(h, masters, rest);
      EntryIsSmall(h, masters, m);
      UnionSplits(h.had, names, m);
      UnionSize(Union(h.had, rest), h.had[m]);
    }
  }

  lemma UnionSize(a: set<nat>, b: set<nat>)
    ensures |a + b| <= |a| + |b|
  {
    assert a + b == a + (b - a);
    assert b == (b - a) + (b * a);
  }

  lemma EntryIsSmall(h: Past, masters: set<Name>, n: Name)
    requires Explained(h, masters) && n in masters
    ensures |h.had[n]| <= 1 + |Union(h.had, Above(masters, n))|
  {
    assert EntryOk(h, masters, n);
    var earlier, others := h.had[n] - {h.now[n]}, Union(h.had, Above(masters, n));
    assert h.had[n] == earlier + {h.now[n]};
    assert others == earlier + (others - earlier);
  }

  /** A master with k larger-named ones has had at most 2^k epochs. */
  lemma AtMostPow2(h: Past, masters: set<Name>, n: Name)
    requires Explained(h, masters) && n in masters
    ensures |h.had[n]| <= Pow2(|Above(masters, n)|)
  {
    AboveIsUpwardClosed(masters, n);
    UnionIsSmall(h, masters, Above(masters, n));
    EntryIsSmall(h, masters, n);
  }
}

/**
 Config epoch collisions: among masters that only exchange pings, however old or reordered the headers,
 a master with k larger-named masters repairs at most 2^k - 1 times; and when no current header would
 cause a repair, all masters have different epochs.
 */
module CollisionRepair {
  import opened Names
  import opened ClusterView
  import opened ClusterBus
  import opened EpochBound
  import opened EpochHistory

  /** The node knows all of these as masters. */
  ghost predicate Knows(v: View, n: Name, masters: set<Name>)
  {
    v.me == n && forall m {:trigger IsMaster(v, m)} | m in masters :: IsMaster(v, m)
  }

  ghost predicate AllMasters(s: Sys, masters: set<Name>)
  {
    && s.views.Keys == masters && s.tally.Keys == masters
    && (forall n | n in s.views :: Knows(s.views[n], n, masters))
    && (forall p | p in s.net :: p.h.sender in masters && p.h.slaveOf.None?)
  }

  /** Nobody knows an epoch of another master that this master has not reached. */
  ghost predicate NotAhead(s: Sys)
  {
    forall n, m {:trigger EpochOf(s.views[n], m)} | n in s.views && m in s.views ::
      EpochOf(s.views[n], m) <= EpochOf(s.views[m], m)
  }

  /** Masters that know each other, nothing in flight yet. */
  ghost predicate Start(s: Sys, masters: set<Name>)
  {
    Bounded(s) && AllMasters(s, masters) && NotAhead(s) && s.net == {}
  }

  ghost predicate OnlyPings(steps: seq<Step>)
  {
    forall st | st in steps :: st.SendPing? || st.DeliverPing?
  }

  /** How often the run changes the own epoch of `n`. */
  ghost function Repairs(s: Sys, steps: seq<Step>, n: Name): nat
    requires n in s.views
    decreases |steps|
  {
    if steps == [] then 0
    else
      var t := Apply(s, steps[0]);
      (if EpochOf(t.views[n], n) != EpochOf(s.views[n], n) then 1 else 0) + Repairs(t, steps[1..], n)
  }

  ghost predicate Matches(h: Past, s: Sys)
  {
    && (forall n | n in s.views :: n in h.now && h.now[n] == EpochOf(s.views[n], n))
    && (forall p | p in s.net :: p.h.sender in h.had && p.h.configEpoch in h.had[p.h.sender])
  }

  ghost predicate Repairing(s: Sys, masters: set<Name>, h: Past)
  {
    Bounded(s) && AllMasters(s, masters) && NotAhead(s) && Explained(h, masters) && Matches(h, s)
  }

  /** What a ping does to a master: only a collision with a larger name changes its own epoch, upwards. */
  lemma PingEffect(v: View, h: Header, masters: set<Name>)
    requires BoundedView(v) && BoundedHeader(h) && Knows(v, v.me, masters)
    requires v.me in masters && h.sender in masters && h.sender != v.me && h.slaveOf.None?
    ensures var w := HandlePing(v, h);
            && Knows(w, v.me, masters)
            && (forall m | m in masters && m != v.me ::
                  EpochOf(w, m) == if m == h.sender then Max(EpochOf(v, m), h.configEpoch) else EpochOf(v, m))
            && (EpochOf(w, v.me) == EpochOf(v, v.me)
                || (EpochOf(w, v.me) > EpochOf(v, v.me) == h.configEpoch && Less(v.me, h.sender)))
            && (h.configEpoch == EpochOf(v, v.me) >= EpochOf(v, h.sender) && Less(v.me, h.sender)
                ==> EpochOf(w, v.me) > EpochOf(v, v.me))
  {
    HeaderKeepsBound(v, h);
    assert IsMaster(v, h.sender) && IsMaster(v, v.me);
    var u := PingShape(v, h);
    forall m | m in masters ensures IsMaster(HandlePing(v, h), m) {
      assert IsMaster(v, m);
    }
  }

  /** Only the view of `n` changed, and only pings of `n` with its present epoch were added. */
  ghost predicate Changed(s: Sys, t: Sys, n: Name)
  {
    && n in s.views && n in t.views && t.views == s.views[n := t.views[n]] && t.tally.Keys == s.tally.Keys
    && EpochOf(s.views[n], n) <= EpochOf(t.views[n], n)
    && forall p | p in t.net :: p in s.net || (p.h.sender == n && p.h.slaveOf.None? && p.h.configEpoch == EpochOf(t.views[n], n))
  }

  lemma SendEffect(s: Sys, st: Step, masters: set<Name>)
    requires AllMasters(s, masters) && Enabled(s, st) && st.SendPing?
    ensures Changed(s, Apply(s, st), st.n) && Apply(s, st).views[st.n] == s.views[st.n]
  {
    assert IsMaster(s.views[st.n], st.n);
    assert s.views[st.n := s.views[st.n]] == s.views;
  }

  lemma DeliverEffect(s: Sys, st: Step, masters: set<Name>)
    requires Bounded(s) && AllMasters(s, masters) && Enabled(s, st) && st.DeliverPing?
    ensures Changed(s, Apply(s, st), st.n)
    ensures Apply(s, st).views[st.n] == HandlePing(s.views[st.n], st.p.h)
  {
    PingEffect(s.views[st.n], st.p.h, masters);
  }

  lemma MastersKept(s: Sys, t: Sys, n: Name, masters: set<Name>)
    requires AllMasters(s, masters) && Changed(s, t, n) && Knows(t.views[n], n, masters)
    ensures AllMasters(t, masters)
  {
  }

  lemma NotAheadKept(s: Sys, t: Sys, n: Name)
    requires NotAhead(s) && Changed(s, t, n)
    requires forall m | m in s.views && m != n :: EpochOf(t.views[n], m) <= EpochOf(s.views[m], m)
    ensures NotAhead(t)
  {
    forall k, m | k in t.views && m in t.views ensures EpochOf(t.views[k], m) <= EpochOf(t.views[m], m) {
      assert EpochOf(s.views[k], m) <= EpochOf(s.views[m], m);
    }
  }

  lemma MatchKept(s: Sys, t: Sys, n: Name, h: Past)
    requires Matches(h, s) && Changed(s, t, n) && n in h.had && n in h.now
    ensures Matches(Record(h, n, EpochOf(t.views[n], n)), t)
  {
  }

  lemma SendRepairs(s: Sys, st: Step, masters: set<Name>, h: Past)
    requires Repairing(s, masters, h) && Enabled(s, st) && st.SendPing?
    ensures Changed(s, Apply(s, st), st.n) && NotAhead(Apply(s, st)) && AllMasters(Apply(s, st), masters)
    ensures Explained(Record(h, st.n, EpochOf(Apply(s, st).views[st.n], st.n)), masters)
  {
    SendEffect(s, st, masters);
    assert EntryOk(h, masters, st.n);
    RecordKeepsExplained(h, masters, st.n, EpochOf(s.views[st.n], st.n), st.n);
    NotAheadKept(s, Apply(s, st), st.n);
    MastersKept(s, Apply(s, st), st.n, masters);
  }

  lemma DeliverRepairs(s: Sys, st: Step, masters: set<Name>, h: Past)
    requires Repairing(s, masters, h) && Enabled(s, st) && st.DeliverPing?
    ensures Changed(s, Apply(s, st), st.n) && NotAhead(Apply(s, st)) && AllMasters(Apply(s, st), masters)
    ensures Explained(Record(h, st.n, EpochOf(Apply(s, st).views[st.n], st.n)), masters)
  {
    var n, m, t := st.n, st.p.h.sender, Apply(s, st);
    assert EntryOk(h, masters, n) && EntryOk(h, masters, m);
    DeliverEffect(s, st, masters);
    PingEffect(s.views[n], st.p.h, masters);
    forall k | k in s.views && k != n ensures EpochOf(t.views[n], k) <= EpochOf(s.views[k], k) {
      assert EpochOf(s.views[n], k) <= EpochOf(s.views[k], k);
    }
    NotAheadKept(s, t, n);
    MastersKept(s, t, n, masters);
    RecordKeepsExplained(h, masters, n, EpochOf(t.views[n], n), m);
  }

  lemma EnabledRepairs(s: Sys, st: Step, masters: set<Name>, h: Past)
    requires Repairing(s, masters, h) && Enabled(s, st) && (st.SendPing? || st.DeliverPing?)
    ensures st.n in masters && EntryOk(h, masters, st.n) && Changed(s, Apply(s, st), st.n)
    ensures Repairing(Apply(s, st), masters, Record(h, st.n, EpochOf(Apply(s, st).views[st.n], st.n)))
  {
    ApplyKeepsBound(s, st);
    assert EntryOk(h, masters, st.n);
    if st.SendPing? { SendRepairs(s, st, masters, h); } else { DeliverRepairs(s, st, masters, h); }
    MatchKept(s, Apply(s, st), st.n, h);
  }

  lemma RecordCounts(h: Past, masters: set<Name>, n: Name, e: nat, k: Name)
    requires n in h.had && n in h.now && EntryOk(h, masters, n) && h.now[n] <= e && k in h.had
    ensures |Record(h, n, e).had[k]| == |h.had[k]| + if k == n && e != h.now[n] then 1 else 0
  {
    if e == h.now[n] { assert h.had[n] + {e} == h.had[n]; }
  }

  lemma CountStep(s: Sys, t: Sys, masters: set<Name>, h: Past, k: Name, n: Name)
    requires Matches(h, s) && Changed(s, t, k) && k in h.had && k in h.now && EntryOk(h, masters, k)
    requires n in s.views && n in t.views && n in h.had
    ensures |Record(h, k, EpochOf(t.views[k], k)).had[n]|
         == |h.had[n]| + if EpochOf(t.views[n], n) != EpochOf(s.views[n], n) then 1 else 0
  {
    RecordCounts(h, masters, k, EpochOf(t.views[k], k), n);
  }

  lemma StepRepairs(s: Sys, st: Step, masters: set<Name>, h: Past, n: Name) returns (next: Past)
    requires Repairing(s, masters, h) && (st.SendPing? || st.DeliverPing?) && n in masters
    ensures Repairing(Apply(s, st), masters, next)
    ensures n in s.views && n in Apply(s, st).views && n in h.had && n in next.had
    ensures |next.had[n]| == |h.had[n]| + if EpochOf(Apply(s, st).views[n], n) != EpochOf(s.views[n], n) then 1 else 0
  {
    if Enabled(s, st) {
      EnabledRepairs(s, st, masters, h);
      CountStep(s, Apply(s, st), masters, h, st.n, n);
      next := Record(h, st.n, EpochOf(Apply(s, st).views[st.n], st.n));
    } else {
      next := h;
    }
  }

  lemma {:induction false} RunRepairs(s: Sys, steps: seq<Step>, masters: set<Name>, h: Past, n: Name) returns (last: Past)
    requires Repairing(s, masters, h) && OnlyPings(steps) && n in masters
    ensures Repairing(Run(s, steps), masters, last)
    ensures n in h.had && n in last.had && n in s.views
    ensures |last.had[n]| == |h.had[n]| + Repairs(s, steps, n)
    decreases |steps|
  {
    if steps == [] {
      assert EntryOk(h, masters, n);
      last := h;
    } else {
      var next := StepRepairs(s, steps[0], masters, h, n);
      last := RunRepairs(Apply(s, steps[0]), steps[1..], masters, next, n);
    }
  }

  lemma StartRepairing(s: Sys, masters: set<Name>) returns (h: Past)
    requires Start(s, masters)
    ensures Repairing(s, masters, h) && forall n | n in masters :: |h.had[n]| == 1
  {
    h := Past(map n | n in masters :: {EpochOf(s.views[n], n)}, map n | n in masters :: EpochOf(s.views[n], n));
  }

  /** Every run of pings among masters makes a master repair at most 2^k - 1 times, k counting the larger names. */
  lemma RepairBound(s: Sys, steps: seq<Step>, masters: set<Name>, n: Name)
    requires Start(s, masters) && OnlyPings(steps) && n in masters
    ensures Repairs(s, steps, n) <= Pow2(|Above(masters, n)|) - 1
  {
    var h := StartRepairing(s, masters);
    var last := RunRepairs(s, steps, masters, h, n);
    AtMostPow2(last, masters, n);
  }

  // ---------------------------------------------------------------- at rest, all epochs differ

  /** Seeing the other's current header would not change the own epoch. */
  ghost predicate Content(s: Sys, n: Name, m: Name)
    requires n in s.views && m in s.views
  {
    EpochOf(HandlePing(s.views[n], MakeHeader(s.views[m])), n) == EpochOf(s.views[n], n)
  }

  ghost predicate AtRest(s: Sys)
  {
    forall n, m | n in s.views && m in s.views && n != m :: Content(s, n, m)
  }

  ghost predicate Distinct(s: Sys)
  {
    forall n, m | n in s.views && m in s.views && n != m :: EpochOf(s.views[n], n) != EpochOf(s.views[m], m)
  }

  lemma ContentExactly(t: Sys, masters: set<Name>, n: Name, m: Name)
    requires Bounded(t) && AllMasters(t, masters) && NotAhead(t) && n in masters && m in masters && n != m
    ensures !Content(t, n, m) <==> EpochOf(t.views[n], n) == EpochOf(t.views[m], m) && Less(n, m)
  {
    assert EpochOf(t.views[n], m) <= EpochOf(t.views[m], m);
    assert IsMaster(t.views[m], m);
    PingEffect(t.views[n], MakeHeader(t.views[m]), masters);
  }

  lemma RestMeansDistinct(t: Sys, masters: set<Name>)
    requires Bounded(t) && AllMasters(t, masters) && NotAhead(t)
    ensures AtRest(t) <==> Distinct(t)
  {
    forall n, m | n in masters && m in masters && n != m
      ensures !Content(t, n, m) <==> EpochOf(t.views[n], n) == EpochOf(t.views[m], m) && Less(n, m)
    {
      ContentExactly(t, masters, n, m);
    }
    if AtRest(t) {
      forall n, m | n in t.views && m in t.views && n != m ensures EpochOf(t.views[n], n) != EpochOf(t.views[m], m) {
        assert Content(t, n, m) && Content(t, m, n);
        LessIsTotal(n, m);
      }
    }
  }

  /** After any run of pings: at rest, and only then, all masters have different epochs. */
  lemma AtRestExactlyIfDistinct(s: Sys, steps: seq<Step>, masters: set<Name>)
    requires Start(s, masters) && OnlyPings(steps) && masters != {}
    ensures AtRest(Run(s, steps)) <==> Distinct(Run(s, steps))
  {
    var h := StartRepairing(s, masters);
    var k :| k in masters;
    var last := RunRepairs(s, steps, masters, h, k);
    RestMeansDistinct(Run(s, steps), masters);
  }
}
