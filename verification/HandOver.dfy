/**
 `sendChunk` as the sender runs it: its status and the chunk locks it holds, phase by phase. What the
 network, the stores and the slot table answer is given by the caller.
 */
module ChunkSender {
  import opened ClusterView

  datatype Status =
    Begin | SnapshotDone | BinlogDone | LastBinlogDone | SendOverDone | MetaChangeDone

  /** How each operation of one `sendChunk` call turns out; `granted` is the number of locks obtained in time. */
  datatype Answers = Answers(
    snapshot: bool,
    binlog: bool,
    granted: nat,
    lastBinlog: bool,
    versionMeta: bool,
    over: bool,
    belongsToDst: bool,
    setSlots: bool)

  class ChunkMigrateSender {
    const slots: set<nat>
    var state: Status
    var locks: seq<nat>

    constructor (slots: set<nat>)
      ensures this.slots == slots && state == Begin && locks == []
    {
      this.slots := slots;
      state, locks := Begin, [];
    }

    predicate NeedToWaitMetaChanged()
      reads this
    {
      state == LastBinlogDone || state == SendOverDone
    }

    predicate NeedToSendFail()
      reads this
    {
      state == SnapshotDone || state == BinlogDone
    }

    /** All the locks or none: those of exactly the migrated slots, each once. */
    ghost predicate AllLocked()
      reads this
    {
      && (forall j :: j in locks <==> j in slots && j < SLOTS)
      && forall a, b | 0 <= a < b < |locks| :: locks[a] != locks[b]
    }

    method LockChunks(granted: nat) returns (ok: bool)
      requires locks == []
      modifies this`locks
      ensures if ok then AllLocked() else locks == []
    {
      for chunk := 0 to SLOTS
        invariant forall j :: j in locks <==> j in slots && j < chunk
        invariant forall a, b | 0 <= a < b < |locks| :: locks[a] != locks[b]
      {
        if chunk in slots {
          if |locks| >= granted {
            locks := [];
            return false;
          }
          locks := locks + [chunk];
        }
      }
      return true;
    }

    /**
     The call returns with the locks held exactly when the status says that the receiver may have been told
     to take over; `told` is the result it was told, if any.
     */
    method SendChunk(a: Answers) returns (ok: bool, told: seq<bool>)
      requires locks == [] && (state == Begin || NeedToSendFail())
      modifies this`state, this`locks
      ensures if NeedToWaitMetaChanged() then AllLocked() else locks == []
      ensures ok <==> state == MetaChangeDone
      ensures true in told <==> NeedToWaitMetaChanged() || ok
      ensures |told| <= 1
    {
      told := [];
      if !a.snapshot { return false, told; }
      state := SnapshotDone;
      if !a.binlog {
        told := told + [!NeedToSendFail()];
        return false, told;
      }
      state := BinlogDone;
      ok := LockChunks(a.granted);
      if !ok { return false, told; }
      if !a.lastBinlog || !a.versionMeta {
        locks := [];
        told := told + [!NeedToSendFail()];
        return false, told;
      }
      state := LastBinlogDone;
      told := told + [!NeedToSendFail()];
      if !a.over { return false, told; }
      state := SendOverDone;
      if !a.belongsToDst && !a.setSlots { return false, told; }
      locks := [];
      state := MetaChangeDone;
      return true, told;
    }
  }
}

/**
 Handing a task's slots from the source to the destination, as a protocol: the sender's phases, the
 message that ends a migration, the destination's claim, gossip, and the sender's decision when it is left
 half way. A run is a list of steps; a step that is not enabled changes nothing.
 */
module HandOver {
  import opened ChunkSender

  datatype Task = Running | Half | Clear | Failed

  /**
   `srcOwns`: the migrated slots that the source's table still gives to the source; `dstOwns`: those the
   destination's table gives to the destination. `ending` says that the end message is under way and the
   receiving task still exists; `accepted` that the destination answered it.
   */
  datatype State = State(
    slots: set<nat>,
    status: Status,
    task: Task,
    locked: bool,
    told: bool,
    ending: bool,
    accepted: bool,
    srcOwns: set<nat>,
    dstOwns: set<nat>)

  datatype Step =
    | Advance                      // the next phase of sendChunk succeeds
    | Fail                         // it fails, or its answer does not arrive
    | GiveUp(handed: set<nat>)     // the source hands over only some slots in its own table
    | Claim(taken: set<nat>)       // the end message arrives; the destination takes these slots
    | Lose                         // the end message is lost, or the receiving task is gone
    | Gossip(seen: set<nat>)       // the source's table learns of slots the destination claimed
    | Resolve                      // the waiting time of a half-done task is over
    | Retry                        // a task that failed early, with no key sent, starts again

  function Start(slots: set<nat>): State
  {
    State(slots, Begin, Running, false, false, false, false, slots, {})
  }

  function Advanced(s: State): State
  {
    match s.status
    case Begin => s.(status := SnapshotDone)
    case SnapshotDone => s.(status := BinlogDone)
    case BinlogDone => if s.locked then s.(status := LastBinlogDone) else s.(locked := true)
    case LastBinlogDone =>
      if !s.told then s.(told := true, ending := true)
      else if s.accepted then s.(status := SendOverDone) else s
    case SendOverDone => s.(srcOwns := {}, locked := false, status := MetaChangeDone, task := Clear)
    case MetaChangeDone => s
  }

  function FailedStep(s: State): State
  {
    if s.status == LastBinlogDone then s.(task := Half)
    else if s.status == SendOverDone || s.status == MetaChangeDone then s
    else s.(locked := false, task := Failed)
  }

  predicate Early(s: State)
  {
    s.status == Begin || s.status == SnapshotDone || s.status == BinlogDone
  }

  function Resolved(s: State): State
  {
    if s.srcOwns == {} then s.(status := MetaChangeDone, locked := false, task := Clear)
    else s.(locked := false, task := Failed)
  }

  function Apply(s: State, st: Step): State
  {
    match st
    case Advance => if s.task == Running then Advanced(s) else s
    case Fail => if s.task == Running then FailedStep(s) else s
    case GiveUp(handed) =>
      if s.task == Running && s.status == SendOverDone then s.(srcOwns := s.srcOwns - handed, task := Half) else s
    case Claim(taken) =>
      if s.ending && taken <= s.slots
      then s.(ending := false, dstOwns := s.dstOwns + taken, accepted := taken == s.slots) else s
    case Lose => s.(ending := false)
    case Gossip(seen) => if seen <= s.dstOwns then s.(srcOwns := s.srcOwns - seen) else s
    case Resolve => if s.task == Half then Resolved(s) else s
    case Retry => if s.task == Failed && Early(s) then s.(task := Running, status := Begin) else s
  }

  function Run(s: State, steps: seq<Step>): State
    decreases |steps|
  {
    if steps == [] then s else Run(Apply(s, steps[0]), steps[1..])
  }

  /** No slot takes writes on both sides: the source's writes are kept out by the locks. */
  ghost predicate Safe(s: State)
  {
    s.locked || s.srcOwns !! s.dstOwns
  }

  /** The slots the destination has claimed, or still may claim. */
  function MayClaim(s: State): set<nat>
  {
    if s.ending then s.slots else s.dstOwns
  }

  /** The source's table reflects every claim, made or still to come. */
  ghost predicate Timely(s: State)
  {
    s.srcOwns !! MayClaim(s)
  }

  ghost predicate TimelyRun(s: State, steps: seq<Step>)
    decreases |steps|
  {
    steps == [] || ((steps[0] == Resolve && s.task == Half ==> Timely(s)) && TimelyRun(Apply(s, steps[0]), steps[1..]))
  }

  /** What every step keeps, as long as half-done tasks are resolved in time. */
  ghost predicate Sound(s: State)
  {
    && s.srcOwns <= s.slots && s.dstOwns <= s.slots
    && (s.ending ==> s.told)
    && (!s.told ==> s.dstOwns == {} && !s.accepted)
    && (s.told ==> s.status in {LastBinlogDone, SendOverDone, MetaChangeDone})
    && (s.task == Running ==> (s.locked ==> Waiting(s) || s.status == BinlogDone) && (Waiting(s) ==> s.locked))
    && (s.task == Half ==> s.locked && Waiting(s))
    && (s.task == Failed ==> !s.locked)
    && (s.accepted ==> s.dstOwns == s.slots && !s.ending)
    && (s.status == SendOverDone ==> s.accepted)
    && (!s.locked ==> Timely(s))
  }

  ghost predicate Waiting(s: State)
  {
    s.status == LastBinlogDone || s.status == SendOverDone
  }

  lemma StepKeepsSound(s: State, st: Step)
    requires Sound(s) && (st == Resolve && s.task == Half ==> Timely(s))
    ensures Sound(Apply(s, st))
  {
  }

  /** With half-done tasks resolved in time, no slot is ever writable on both nodes. */
  lemma {:induction false} TimelyRunsAreSafe(s: State, steps: seq<Step>)
    requires Sound(s) && TimelyRun(s, steps)
    ensures Sound(Run(s, steps)) && Safe(Run(s, steps))
    decreases |steps|
  {
    if steps != [] {
      StepKeepsSound(s, steps[0]);
      TimelyRunsAreSafe(Apply(s, steps[0]), steps[1..]);
    }
  }

  lemma HandOverIsSafe(slots: set<nat>, steps: seq<Step>)
    requires TimelyRun(Start(slots), steps)
    ensures Safe(Run(Start(slots), steps))
  {
    TimelyRunsAreSafe(Start(slots), steps);
  }

  /** The migration is over for good: what fails early may be tried again, what was half done may not. */
  ghost predicate Over(s: State)
  {
    s.task == Clear || (s.task == Failed && !Early(s))
  }

  lemma {:induction false} OverStaysOver(s: State, steps: seq<Step>)
    requires Over(s)
    ensures TimelyRun(s, steps) && Over(Run(s, steps))
    decreases |steps|
  {
    if steps != [] { OverStaysOver(Apply(s, steps[0]), steps[1..]); }
  }

  /** Whatever happens, up to the resolution of a half-done task everything is in order. */
  lemma {:induction false} UnresolvedIsSound(s: State, steps: seq<Step>)
    requires Sound(s)
    ensures Run(s, steps).task in {Running, Half} ==> Sound(Run(s, steps))
    decreases |steps|
  {
    if steps != [] {
      if steps[0] == Resolve && s.task == Half {
        OverStaysOver(Apply(s, steps[0]), steps[1..]);
      } else {
        StepKeepsSound(s, steps[0]);
        UnresolvedIsSound(Apply(s, steps[0]), steps[1..]);
      }
    }
  }

  /** In every run, `sendChunk` returns with the locks held exactly when the source has to wait for the outcome. */
  lemma ReturnsLockedExactlyIfWaiting(slots: set<nat>, steps: seq<Step>, st: Step)
    requires Run(Start(slots), steps).task == Running && Apply(Run(Start(slots), steps), st).task != Running
    ensures var t := Apply(Run(Start(slots), steps), st);
            (t.locked <==> Waiting(t)) && (t.task == Half <==> Waiting(t))
  {
    UnresolvedIsSound(Start(slots), steps);
  }

  ghost predicate SafeAfter(s: State, steps: seq<Step>)
  {
    Safe(Run(s, steps))
  }

  /** Resolving a half-done task is safe, for all that may follow, exactly if it is done in time. */
  lemma ResolveIsSafeExactlyIfTimely(slots: set<nat>, before: seq<Step>)
    requires Run(Start(slots), before).task == Half
    ensures var s := Run(Start(slots), before);
            Timely(s) <==> forall steps :: SafeAfter(Apply(s, Resolve), steps)
  {
    var s := Run(Start(slots), before);
    var t := Apply(s, Resolve);
    UnresolvedIsSound(Start(slots), before);
    if Timely(s) {
      StepKeepsSound(s, Resolve);
      forall steps ensures SafeAfter(t, steps) {
        OverStaysOver(t, steps);
        TimelyRunsAreSafe(t, steps);
      }
    } else if s.ending {
      assert Run(t, [Claim(slots)]) == Apply(t, Claim(slots)) by { assert [Claim(slots)][1..] == []; }
      SlotsStay(Start(slots), before);
      assert !SafeAfter(t, [Claim(slots)]);
    } else {
      assert !SafeAfter(t, []);
    }
  }

  lemma {:induction false} SlotsStay(s: State, steps: seq<Step>)
    ensures Run(s, steps).slots == s.slots
    decreases |steps|
  {
    if steps != [] { SlotsStay(Apply(s, steps[0]), steps[1..]); }
  }

  /** The waiting time alone is not enough: an end message that arrives after it makes both nodes owners. */
  lemma LateClaimIsUnsafe(slots: set<nat>)
    requires slots != {}
    ensures !Safe(Run(Start(slots),
                      [Advance, Advance, Advance, Advance, Advance, Fail, Resolve, Claim(slots)]))
  {
    var steps := [Advance, Advance, Advance, Advance, Advance, Fail, Resolve, Claim(slots)];
    var s := Start(slots);
    s := Take(s, steps, 0); s := Take(s, steps, 1); s := Take(s, steps, 2); s := Take(s, steps, 3);
    s := Take(s, steps, 4); s := Take(s, steps, 5); s := Take(s, steps, 6); s := Take(s, steps, 7);
  }

  lemma Take(s: State, steps: seq<Step>, i: nat) returns (t: State)
    requires i < |steps|
    ensures t == Apply(s, steps[i]) && Run(s, steps[i..]) == Run(t, steps[i + 1..])
  {
    t := Apply(s, steps[i]);
    assert steps[i..][1..] == steps[i + 1..];
  }
}
