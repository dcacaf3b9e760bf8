/**
 Slot claims: every master claims a set of slots under one config epoch, and a node hears the claims in
 some order, any number of times, from the masters' own pings or from updates that others send. Each slot
 ends with the greatest epoch among the claims that were heard; the module says exactly which those are.
 */
module Convergence {
  import opened Names
  import opened ClusterView

  datatype Claim = Claim(epoch: nat, slots: set<nat>)

  /** A ping of a claimant, or an update about one that arrives under the header of anybody. */
  datatype Event =
    | Pinged(from: Name, currentEpoch: nat)
    | Updated(h: Header, about: Name)

  function Handle(v: View, claims: map<Name, Claim>, ev: Event): View
    requires About(ev) in claims
  {
    match ev
    case Pinged(m, current) => HandlePing(v, Header(m, current, claims[m].epoch, claims[m].slots, None))
    case Updated(h, m) => HandleUpdate(v, h, m, claims[m].epoch, claims[m].slots)
  }

  function About(ev: Event): Name
  {
    match ev
    case Pinged(m, _) => m
    case Updated(_, m) => m
  }

  /** The event is about a claimant, and no header shows a claimant ahead of its claim. */
  ghost predicate Plausible(claims: map<Name, Claim>, ev: Event)
  {
    && About(ev) in claims
    && (ev.Updated? && ev.h.sender in claims ==> ev.h.configEpoch <= claims[ev.h.sender].epoch)
  }

  ghost predicate AllPlausible(claims: map<Name, Claim>, events: seq<Event>)
  {
    forall ev | ev in events :: Plausible(claims, ev)
  }

  function HandleAll(v: View, claims: map<Name, Claim>, events: seq<Event>): View
    requires forall ev | ev in events :: About(ev) in claims
    decreases |events|
  {
    if events == [] then v else HandleAll(Handle(v, claims, events[0]), claims, events[1..])
  }

  // ---------------------------------------------------------------- which claims are heard

  /** Whose claimed epoch is known after the event: a header alone is enough. */
  function Learned(peers: set<Name>, claims: map<Name, Claim>, known: set<Name>, ev: Event): set<Name>
    requires About(ev) in claims
  {
    match ev
    case Pinged(m, _) => known + {m}
    case Updated(h, m) =>
      if h.sender !in peers then known
      else known + {m} + (if h.sender in claims && h.configEpoch == claims[h.sender].epoch then {h.sender} else {})
  }

  /** Whether the claim is looked at: a ping always, an update only while the epoch was not known. */
  predicate Hears(peers: set<Name>, claims: map<Name, Claim>, known: set<Name>, ev: Event)
    requires About(ev) in claims
  {
    match ev
    case Pinged(_, _) => true
    case Updated(h, m) =>
      h.sender in peers && m !in known && !(h.sender == m && h.configEpoch == claims[m].epoch)
  }

  /** The claimants whose claims a list of events gets heard, from the epochs known before it. */
  function Heard(peers: set<Name>, claims: map<Name, Claim>, known: set<Name>, events: seq<Event>): set<Name>
    requires forall ev | ev in events :: About(ev) in claims
    decreases |events|
  {
    if events == [] then {}
    else
      (if Hears(peers, claims, known, events[0]) then {About(events[0])} else {})
      + Heard(peers, claims, Learned(peers, claims, known, events[0]), events[1..])
  }

  // ---------------------------------------------------------------- who wins a slot

  /** `w` claims slot `j` and has the greatest epoch among those of `names` that do. */
  ghost predicate Best(claims: map<Name, Claim>, names: set<Name>, j: nat, w: Option<Name>)
  {
    match w
    case None => forall m | m in names && m in claims :: j !in claims[m].slots
    case Some(n) =>
      && n in names && n in claims && j in claims[n].slots
      && forall m | m in names && m in claims && j in claims[m].slots :: claims[m].epoch <= claims[n].epoch
  }

  ghost predicate DistinctEpochs(claims: map<Name, Claim>)
  {
    forall m, n | m in claims && n in claims && m != n :: claims[m].epoch != claims[n].epoch
  }

  lemma BestIsUnique(claims: map<Name, Claim>, names: set<Name>, j: nat, a: Option<Name>, b: Option<Name>)
    requires DistinctEpochs(claims) && Best(claims, names, j, a) && Best(claims, names, j, b)
    ensures a == b
  {
  }

  /** Epochs known so far are those of the claims, and every slot is with the best claim heard so far. */
  ghost predicate Settled(v: View, claims: map<Name, Claim>, known: set<Name>, heard: set<Name>)
  {
    && v.me !in claims
    && (forall m | m in claims :: m in v.nodes && EpochOf(v, m) <= claims[m].epoch)
    && (forall m | m in claims :: m in known <==> EpochOf(v, m) == claims[m].epoch)
    && heard <= known
    && (forall j: nat | j < |v.table| :: Best(claims, heard, j, v.table[j]))
  }

  /** The slots part of a claim, from a view where the claimant's epoch is already known. */
  lemma MergeSettles(v: View, claims: map<Name, Claim>, known: set<Name>, heard: set<Name>, m: Name)
    requires m in claims && m in known && m != v.me
    requires Settled(v, claims, known, heard)
    ensures Settled(UpdateSlots(v, m, claims[m].epoch, claims[m].slots), claims, known, heard + {m})
  {
    var w := UpdateSlots(v, m, claims[m].epoch, claims[m].slots);
    forall j: nat | j < |w.table| ensures Best(claims, heard + {m}, j, w.table[j]) {
      assert Best(claims, heard, j, v.table[j]);
    }
  }

  /** When the claimed slots equal the held ones, processing the claim would change nothing. */
  lemma ShortcutChangesNothing(v: View, h: Header)
    ensures TakeSlots(v, h) == if IsMaster(v, h.sender) then UpdateSlots(v, h.sender, h.configEpoch, h.slots) else v
  {
    if IsMaster(v, h.sender) && !Dirty(v, h) {
      forall j | 0 <= j < |v.table| ensures Merged(v, h.sender, h.configEpoch, h.slots)[j] == v.table[j] {
        assert j in h.slots <==> j in SlotsOf(v.table, h.sender);
      }
    }
  }

  lemma HeaderSettles(v: View, claims: map<Name, Claim>, known: set<Name>, heard: set<Name>, h: Header)
    requires Settled(v, claims, known, heard) && h.sender in v.nodes
    requires h.sender in claims ==> h.configEpoch <= claims[h.sender].epoch
    ensures Settled(SeeHeader(v, h), claims,
                    known + (if h.sender in claims && h.configEpoch == claims[h.sender].epoch then {h.sender} else {}),
                    heard)
  {
  }

  /** Roles, and epochs of nodes without claims, play no part. */
  lemma StaysSettled(v: View, w: View, claims: map<Name, Claim>, known: set<Name>, heard: set<Name>)
    requires Settled(v, claims, known, heard)
    requires w.me == v.me && w.table == v.table && w.nodes.Keys == v.nodes.Keys
    requires forall m | m in claims :: EpochOf(w, m) == EpochOf(v, m)
    ensures Settled(w, claims, known, heard)
  {
  }

  lemma PingSettles(v: View, claims: map<Name, Claim>, known: set<Name>, heard: set<Name>, m: Name, current: nat)
    requires m in claims && Settled(v, claims, known, heard)
    ensures Settled(Handle(v, claims, Pinged(m, current)), claims, known + {m}, heard + {m})
    ensures Handle(v, claims, Pinged(m, current)).nodes.Keys == v.nodes.Keys
  {
    var h := Header(m, current, claims[m].epoch, claims[m].slots, None);
    var v1 := SeeHeader(v, h);
    HeaderSettles(v, claims, known, heard, h);
    var v2 := TakeRole(v1, h);
    StaysSettled(v1, v2, claims, known + {m}, heard);
    ShortcutChangesNothing(v2, h);
    MergeSettles(v2, claims, known + {m}, heard, m);
    var v3 := TakeSlots(v2, h);
    StaysSettled(v3, Repair(v3, m), claims, known + {m}, heard + {m});
  }

  lemma EpochSettles(v: View, claims: map<Name, Claim>, known: set<Name>, heard: set<Name>, m: Name)
    requires m in claims && Settled(v, claims, known, heard)
    ensures Settled(SetEpoch(SetRole(v, m, Master), m, claims[m].epoch), claims, known + {m}, heard)
  {
  }

  lemma UpdateSettles(v: View, claims: map<Name, Claim>, known: set<Name>, heard: set<Name>, ev: Event)
    requires ev.Updated? && Plausible(claims, ev) && Settled(v, claims, known, heard)
    ensures Settled(Handle(v, claims, ev), claims, Learned(v.nodes.Keys, claims, known, ev),
                    heard + if Hears(v.nodes.Keys, claims, known, ev) then {ev.about} else {})
    ensures Handle(v, claims, ev).nodes.Keys == v.nodes.Keys
  {
    var h, m := ev.h, ev.about;
    if h.sender in v.nodes {
      var v1 := SeeHeader(v, h);
      var known1 := known + if h.sender in claims && h.configEpoch == claims[h.sender].epoch then {h.sender} else {};
      HeaderSettles(v, claims, known, heard, h);
      var all := Learned(v.nodes.Keys, claims, known, ev);
      assert all == known1 + {m};
      if Hears(v.nodes.Keys, claims, known, ev) {
        EpochSettles(v1, claims, known1, heard, m);
        MergeSettles(SetEpoch(SetRole(v1, m, Master), m, claims[m].epoch), claims, all, heard, m);
      } else {
        assert all == known1 && heard + {} == heard;
      }
    } else {
      assert heard + {} == heard;
    }
  }

  lemma EventSettles(v: View, claims: map<Name, Claim>, known: set<Name>, heard: set<Name>, ev: Event)
    requires Plausible(claims, ev) && Settled(v, claims, known, heard)
    ensures Settled(Handle(v, claims, ev), claims, Learned(v.nodes.Keys, claims, known, ev),
                    heard + if Hears(v.nodes.Keys, claims, known, ev) then {About(ev)} else {})
    ensures Handle(v, claims, ev).nodes.Keys == v.nodes.Keys
  {
    match ev
    case Pinged(m, current) => PingSettles(v, claims, known, heard, m, current);
    case Updated(_, _) => UpdateSettles(v, claims, known, heard, ev);
  }

  lemma {:induction false} EventsSettle(v: View, claims: map<Name, Claim>, known: set<Name>, heard: set<Name>,
                                        events: seq<Event>) returns (last: set<Name>)
    requires AllPlausible(claims, events) && Settled(v, claims, known, heard)
    ensures Settled(HandleAll(v, claims, events), claims, last, heard + Heard(v.nodes.Keys, claims, known, events))
    decreases |events|
  {
    if events == [] {
      assert heard + {} == heard;
      last := known;
    } else {
      var ev := events[0];
      assert Plausible(claims, ev);
      var peers := v.nodes.Keys;
      var more := if Hears(peers, claims, known, ev) then {About(ev)} else {};
      EventSettles(v, claims, known, heard, ev);
      last := EventsSettle(Handle(v, claims, ev), claims, Learned(peers, claims, known, ev), heard + more, events[1..]);
      var rest := Heard(peers, claims, Learned(peers, claims, known, ev), events[1..]);
      assert heard + more + rest == heard + (more + rest);
    }
  }

  // ---------------------------------------------------------------- the theorems

  /** A node with an unassigned table that knows the claimants, none of them ahead of its claim. */
  ghost predicate Start(v: View, claims: map<Name, Claim>)
  {
    && v.me !in claims
    && (forall m | m in claims :: m in v.nodes && EpochOf(v, m) <= claims[m].epoch)
    && (forall j | 0 <= j < |v.table| :: v.table[j].None?)
  }

  function KnownAtStart(v: View, claims: map<Name, Claim>): set<Name>
  {
    set m | m in claims && EpochOf(v, m) == claims[m].epoch
  }

  function HeardFrom(v: View, claims: map<Name, Claim>, events: seq<Event>): set<Name>
    requires forall ev | ev in events :: About(ev) in claims
  {
    Heard(v.nodes.Keys, claims, KnownAtStart(v, claims), events)
  }

  /** Whatever the order and the repeats, each slot goes to the best of the claims that were heard. */
  lemma SlotsGoToTheBest(v: View, claims: map<Name, Claim>, events: seq<Event>)
    requires Start(v, claims) && AllPlausible(claims, events)
    ensures forall j: nat | j < |HandleAll(v, claims, events).table| ::
              Best(claims, HeardFrom(v, claims, events), j, HandleAll(v, claims, events).table[j])
  {
    var last := EventsSettle(v, claims, KnownAtStart(v, claims), {}, events);
    assert {} + HeardFrom(v, claims, events) == HeardFrom(v, claims, events);
  }

  lemma {:induction false} SameLength(v: View, claims: map<Name, Claim>, events: seq<Event>)
    requires forall ev | ev in events :: About(ev) in claims
    ensures |HandleAll(v, claims, events).table| == |v.table|
    decreases |events|
  {
    if events != [] { SameLength(Handle(v, claims, events[0]), claims, events[1..]); }
  }

  /** The claimant with the greatest epoch gets the slot exactly if its claim was heard. */
  lemma GreatestWinsExactlyIfHeard(v: View, claims: map<Name, Claim>, events: seq<Event>, j: nat, w: Name)
    requires Start(v, claims) && AllPlausible(claims, events) && DistinctEpochs(claims)
    requires j < |v.table| && Best(claims, claims.Keys, j, Some(w))
    ensures j < |HandleAll(v, claims, events).table|
    ensures HandleAll(v, claims, events).table[j] == Some(w) <==> w in HeardFrom(v, claims, events)
  {
    SameLength(v, claims, events);
    SlotsGoToTheBest(v, claims, events);
    var heard := HeardFrom(v, claims, events);
    if w in heard {
      assert Best(claims, heard, j, Some(w));
      BestIsUnique(claims, heard, j, Some(w), HandleAll(v, claims, events).table[j]);
    }
  }

  /** Two nodes that heard the same claims end with the same table. */
  lemma OrderDoesNotMatter(v: View, w: View, claims: map<Name, Claim>, events: seq<Event>, others: seq<Event>)
    requires Start(v, claims) && Start(w, claims) && |v.table| == |w.table| && DistinctEpochs(claims)
    requires AllPlausible(claims, events) && AllPlausible(claims, others)
    requires HeardFrom(v, claims, events) == HeardFrom(w, claims, others)
    ensures HandleAll(v, claims, events).table == HandleAll(w, claims, others).table
  {
    SameLength(v, claims, events);
    SameLength(w, claims, others);
    SlotsGoToTheBest(v, claims, events);
    SlotsGoToTheBest(w, claims, others);
    forall j: nat | j < |v.table| ensures HandleAll(v, claims, events).table[j] == HandleAll(w, claims, others).table[j] {
      BestIsUnique(claims, HeardFrom(v, claims, events), j,
                   HandleAll(v, claims, events).table[j], HandleAll(w, claims, others).table[j]);
    }
  }

  /** A claimant that pings once is heard, wherever the ping stands among the other events. */
  lemma {:induction false} PingIsHeard(peers: set<Name>, claims: map<Name, Claim>, known: set<Name>, events: seq<Event>, ev: Event)
    requires (forall e | e in events :: About(e) in claims) && ev in events && ev.Pinged?
    ensures ev.from in Heard(peers, claims, known, events)
    decreases |events|
  {
    if events[0] != ev { PingIsHeard(peers, claims, Learned(peers, claims, known, events[0]), events[1..], ev); }
  }

  lemma HeardOfTwo(peers: set<Name>, claims: map<Name, Claim>, known: set<Name>, x: Event, y: Event)
    requires About(x) in claims && About(y) in claims
    ensures Heard(peers, claims, known, [x, y])
         == (if Hears(peers, claims, known, x) then {About(x)} else {})
          + (if Hears(peers, claims, Learned(peers, claims, known, x), y) then {About(y)} else {})
  {
    assert [x, y][1..] == [y];
    var later := Learned(peers, claims, known, x);
    assert Heard(peers, claims, later, [y]) == if Hears(peers, claims, later, y) then {About(y)} else {};
  }

  /**
   An update is not always enough. Once a master's header was seen under an update about somebody else, an
   update about that master brings nothing new: its slots stay without it. The other order gives it them.
   */
  lemma HeaderHidesClaim(v: View, claims: map<Name, Claim>, first: Event, second: Event, j: nat)
    requires Start(v, claims) && DistinctEpochs(claims) && Plausible(claims, first) && Plausible(claims, second)
    requires first.Updated? && second.Updated? && first.about != second.about && j < |v.table|
    requires first.h.sender == second.about && first.h.configEpoch == claims[second.about].epoch
    requires second.h.sender in v.nodes && second.h.sender != second.about
    requires EpochOf(v, second.about) < claims[second.about].epoch && Best(claims, claims.Keys, j, Some(second.about))
    ensures |HandleAll(v, claims, [first, second]).table| == |HandleAll(v, claims, [second, first]).table| == |v.table|
    ensures HandleAll(v, claims, [first, second]).table[j] != Some(second.about)
    ensures HandleAll(v, claims, [second, first]).table[j] == Some(second.about)
  {
    SameLength(v, claims, [first, second]);
    SameLength(v, claims, [second, first]);
    GreatestWinsExactlyIfHeard(v, claims, [first, second], j, second.about);
    GreatestWinsExactlyIfHeard(v, claims, [second, first], j, second.about);
    HeardOfTwo(v.nodes.Keys, claims, KnownAtStart(v, claims), first, second);
    HeardOfTwo(v.nodes.Keys, claims, KnownAtStart(v, claims), second, first);
  }
}
