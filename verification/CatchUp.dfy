/**
 The data part of a slot migration: a snapshot, then the binlog in rounds while clients go on writing, then
 the rest under the chunk locks. Batches may be lost after being applied in part, and are sent again.

 Only entries of a single slot are sent. `Received` is what the destination then ends with: the snapshot, and
 on top of it the sent entries from the captured id on. It is the source's data except where the last write of a
 key was in an entry of no single slot and left something else (`AgreesExactlyIfNotLost`).
 */
module CatchUp {
  import opened Names
  import opened ClusterView
  import opened BinlogReplay

  const SEND_RETRY_CNT := 3

  predicate Proper(log: seq<Entry>)
  {
    Ordered(log) && forall e | e in log :: WellFormed(e)
  }

  /** Ids grow along the log. */
  predicate Ordered(log: seq<Entry>)
  {
    forall i, j | 0 <= i < j < |log| :: log[i].id < log[j].id
  }

  /** A transaction that writes to keys of one slot only has that slot; all others have none. */
  predicate WellFormed(e: Entry)
  {
    e.id > 0 && (e.slot < SLOTS ==> forall op | op in e.ops :: op.key.slot == e.slot)
  }

  /** The position of the first entry with a larger id, where a cursor starts. */
  function FirstAfter(log: seq<Entry>, pos: nat): (i: nat)
    ensures i <= |log|
  {
    Seek(log, pos, 0)
  }

  function Seek(log: seq<Entry>, pos: nat, from: nat): (i: nat)
    requires from <= |log|
    ensures from <= i <= |log|
    decreases |log| - from
  {
    if from == |log| || log[from].id > pos then from else Seek(log, pos, from + 1)
  }

  lemma {:induction false} SeekFinds(log: seq<Entry>, pos: nat, from: nat)
    requires Proper(log) && from <= |log| && forall k | 0 <= k < from :: log[k].id <= pos
    ensures forall k | 0 <= k < |log| :: k < Seek(log, pos, from) <==> log[k].id <= pos
    decreases |log| - from
  {
    if from < |log| && log[from].id <= pos { SeekFinds(log, pos, from + 1); }
  }

  lemma FirstAfterEntry(log: seq<Entry>, i: nat)
    requires Proper(log) && i < |log|
    ensures FirstAfter(log, log[i].id) == i + 1
  {
    SeekFinds(log, log[i].id, 0);
    var j := FirstAfter(log, log[i].id);
    assert i < j;
    if i + 1 < |log| { assert log[i].id < log[i + 1].id; }
  }

  lemma {:induction false} SeekIgnoresLater(log: seq<Entry>, more: seq<Entry>, pos: nat, from: nat)
    requires from <= |log| && Proper(log + more) && (log == [] ==> pos == 0)
    requires log != [] ==> pos <= log[|log| - 1].id
    ensures Seek(log + more, pos, from) == Seek(log, pos, from)
    decreases |log| - from
  {
    if from < |log| {
      SeekIgnoresLater(log, more, pos, from + 1);
    } else if more != [] {
      assert (log + more)[from] == more[0] && WellFormed(more[0]);
      if log != [] { assert (log + more)[|log| - 1].id < (log + more)[from].id; }
    }
  }

  /** From the start position on, all ids are larger. */
  lemma BeyondStart(log: seq<Entry>, pos: nat, i: nat)
    requires Proper(log) && FirstAfter(log, pos) <= i < |log|
    ensures pos < log[i].id <= log[|log| - 1].id
  {
    SeekFinds(log, pos, 0);
  }

  lemma LaterIdsAreLarger(log: seq<Entry>, i: nat, end: nat)
    requires Proper(log) && i <= |log| && (i < |log| ==> log[i].id > end)
    ensures forall e | e in log[i..] :: e.id > end
  {
  }

  lemma FirstAfterGrows(log: seq<Entry>, pos: nat, later: nat)
    requires Proper(log) && pos <= later
    ensures FirstAfter(log, pos) <= FirstAfter(log, later)
  {
    SeekFinds(log, pos, 0);
    SeekFinds(log, later, 0);
    var i := FirstAfter(log, pos);
    if i > 0 { assert log[i - 1].id <= later; }
  }

  // ---------------------------------------------------------------- other clients

  /** The entry needs none of the locked slots. */
  predicate Free(e: Entry, locked: set<nat>)
  {
    e.slot !in locked && forall op | op in e.ops :: op.key.slot !in locked
  }

  predicate Admits(log: seq<Entry>, more: seq<Entry>, locked: set<nat>)
  {
    Proper(log + more) && forall e | e in more :: Free(e, locked)
  }

  /** The log after the arrivals from `from` up to `until`; those that need a locked slot do not get through. */
  function Grown(log: seq<Entry>, arrivals: seq<seq<Entry>>, from: nat, until: nat, locked: set<nat>): seq<Entry>
    requires from <= until
    decreases until
  {
    if from == until then log
    else
      var was := Grown(log, arrivals, from, until - 1, locked);
      if until - 1 < |arrivals| && Admits(was, arrivals[until - 1], locked) then was + arrivals[until - 1] else was
  }

  lemma {:induction false} GrownGrows(log: seq<Entry>, arrivals: seq<seq<Entry>>, from: nat, until: nat, locked: set<nat>)
    requires from <= until && Proper(log)
    ensures var g := Grown(log, arrivals, from, until, locked);
            log <= g && Proper(g) && (forall e | e in g[|log|..] :: Free(e, locked))
    decreases until
  {
    if from < until {
      GrownGrows(log, arrivals, from, until - 1, locked);
      var was, g := Grown(log, arrivals, from, until - 1, locked), Grown(log, arrivals, from, until, locked);
      if g != was { assert g[|log|..] == was[|log|..] + arrivals[until - 1]; }
    }
  }

  lemma {:induction false} GrownTwice(log: seq<Entry>, arrivals: seq<seq<Entry>>, from: nat, mid: nat, until: nat, locked: set<nat>)
    requires from <= mid <= until
    ensures Grown(Grown(log, arrivals, from, mid, locked), arrivals, mid, until, locked) == Grown(log, arrivals, from, until, locked)
    decreases until
  {
    if mid < until { GrownTwice(log, arrivals, from, mid, until - 1, locked); }
  }

  lemma {:induction false} NoMoreArrivals(log: seq<Entry>, arrivals: seq<seq<Entry>>, from: nat, until: nat, locked: set<nat>)
    requires |arrivals| <= from <= until
    ensures Grown(log, arrivals, from, until, locked) == log
    decreases until
  {
    if from < until { NoMoreArrivals(log, arrivals, from, until - 1, locked); }
  }

  /** The store that is being migrated from. Other clients' writes arrive in groups, of which `next` have been tried. */
  class Source {
    const base: Store
    const arrivals: seq<seq<Entry>>
    var log: seq<Entry>
    var next: nat
    var locked: set<nat>

    constructor (base: Store, arrivals: seq<seq<Entry>>)
      ensures log == [] && next == 0 && locked == {} && this.base == base && this.arrivals == arrivals
    {
      this.base, this.arrivals := base, arrivals;
      log, next, locked := [], 0, {};
    }

    function Now(): Store
      reads this
    {
      Replay(base, log)
    }

    function Highest(): nat
      reads this
    {
      TopId(log)
    }

    /** Since the log was `was`, exactly the arrivals from `from` on that need no locked slot were added. */
    ghost predicate Grew(was: seq<Entry>, from: nat)
      reads this
    {
      from <= next && log == Grown(was, arrivals, from, next, locked)
    }

    /** Other clients write. */
    method Progress()
      modifies this`log, this`next
      ensures next == old(next) + 1 && Grew(old(log), old(next))
    {
      if next < |arrivals| && Admits(log, arrivals[next], locked) { log := log + arrivals[next]; }
      next := next + 1;
    }
  }

  /** What becomes of a message: acknowledged, or broken off after some of its entries or records were applied. */
  datatype Fate = Acked | Broken(applied: nat, arrived: set<Key>)

  /** The connection, and the store at its other end. */
  class Link {
    const fates: nat -> Fate
    var sent: nat
    var remote: Store

    constructor (remote: Store, fates: nat -> Fate)
      ensures this.remote == remote && this.fates == fates
    {
      this.remote, this.fates := remote, fates;
      sent := 0;
    }

    /** Every message is acknowledged. */
    ghost predicate Reliable()
    {
      forall n :: fates(n).Acked?
    }

    /** The records of one slot; of a broken transfer any of them may have arrived. */
    method SendRange(records: Store) returns (ok: bool)
      modifies this
      ensures ok ==> remote == old(remote) + records
      ensures exists part: Store | part.Items <= records.Items :: remote == old(remote) + part
      ensures Reliable() ==> ok
    {
      var fate := fates(sent);
      sent := sent + 1;
      ok := fate.Acked?;
      var part := if ok then records else map k | k in records && k in fate.arrived :: records[k];
      assert part.Items <= records.Items;
      remote := remote + part;
    }

    method Send(batch: seq<Entry>) returns (ok: bool)
      modifies this
      ensures ok ==> remote == Replay(old(remote), batch)
      ensures !ok ==> exists n: nat | n <= |batch| :: remote == Replay(old(remote), batch[..n])
      ensures Reliable() ==> ok
    {
      var fate := fates(sent);
      sent := sent + 1;
      ok := fate.Acked?;
      var n := if ok || fate.applied > |batch| then |batch| else fate.applied;
      remote := Replay(remote, batch[..n]);
      assert ok ==> batch[..n] == batch;
    }
  }

  /** Keys outside the slots are the same. */
  ghost predicate SameElsewhere(a: Store, b: Store, slots: set<nat>)
  {
    forall k: Key {:trigger Get(a, k)} | k.slot !in slots :: Get(a, k) == Get(b, k)
  }

  lemma BatchStaysInside(s: Store, batch: seq<Entry>, slots: set<nat>, n: nat)
    requires n <= |batch| && forall e | e in batch :: e.slot in slots && e.slot < SLOTS && WellFormed(e)
    ensures SameElsewhere(Replay(s, batch[..n]), s, slots)
  {
    forall k: Key | k.slot !in slots ensures Get(Replay(s, batch[..n]), k) == Get(s, k) {
      forall e | e in batch[..n] ensures !Writes(e.ops, k) { assert e in batch; }
      UntouchedKeyStays(s, batch[..n], k);
    }
  }

  // ---------------------------------------------------------------- what the destination gets

  /** The snapshot, opened at `taken`, with the sent entries from `start` on, the position of the captured id. */
  function Received(base: Store, log: seq<Entry>, start: nat, taken: nat, slots: set<nat>): Store
    requires start <= |log| && taken <= |log|
  {
    Replay(Replay(base, log[..taken]), Sent(log[start..], slots))
  }

  /**
   The key's last write from the captured id on was in an entry of no single slot, and left something else than
   the last sent one, or than the snapshot if none was sent.
   */
  ghost predicate Lost(base: Store, log: seq<Entry>, start: nat, taken: nat, slots: set<nat>, k: Key)
    requires start <= |log| && taken <= |log|
  {
    var w := LastWrite(log[start..], k);
    && w.Some? && w.value.slot >= SLOTS
    && Outcome(w.value, k) != LeftBy(Get(Replay(base, log[..taken]), k), Sent(log[start..], slots), k)
  }

  /** Key by key, the destination gets the source's data exactly if it is not lost in this way. */
  lemma AgreesExactlyIfNotLost(base: Store, log: seq<Entry>, start: nat, taken: nat, slots: set<nat>, k: Key)
    requires Proper(log) && start <= taken <= |log| && k.slot in slots && k.slot < SLOTS
    ensures Get(Received(base, log, start, taken, slots), k) == Get(Replay(base, log), k)
            <==> !Lost(base, log, start, taken, slots, k)
  {
    var before, tail := Replay(base, log[..start]), log[start..];
    assert log == log[..start] + tail;
    ReplayAppend(base, log[..start], tail);
    ReplayLeaves(before, tail, k);
    ReplayLeaves(Replay(base, log[..taken]), Sent(tail, slots), k);
    LastWriteIsThere(tail, k);
    var w := LastWrite(tail, k);
    if w.None? {
      LastWriteIsSent(tail, slots, k);
      NotYetWritten(base, log, start, taken, k);
    } else {
      OwnerOfWrite(log, start, w.value, k);
      if w.value.slot in slots { LastWriteIsSent(tail, slots, k); }
    }
  }

  lemma NotYetWritten(base: Store, log: seq<Entry>, start: nat, taken: nat, k: Key)
    requires start <= taken <= |log| && !Touched(log[start..], k)
    ensures Get(Replay(base, log[..taken]), k) == Get(Replay(base, log[..start]), k)
  {
    var part := log[start..taken];
    assert log[..taken] == log[..start] + part;
    ReplayAppend(base, log[..start], part);
    forall e | e in part ensures !Writes(e.ops, k) { assert e in log[start..]; }
    UntouchedKeyStays(Replay(base, log[..start]), part, k);
  }

  lemma OwnerOfWrite(log: seq<Entry>, start: nat, e: Entry, k: Key)
    requires Proper(log) && start <= |log| && e in log[start..] && Writes(e.ops, k)
    ensures e.slot == k.slot || e.slot >= SLOTS
  {
    assert WellFormed(e);
  }

  /** Without entries of no single slot that write to the migrated slots after the captured id, nothing is lost. */
  lemma NothingLostWithoutThem(base: Store, log: seq<Entry>, start: nat, taken: nat, slots: set<nat>)
    requires Proper(log) && start <= taken <= |log| && forall j | j in slots :: j < SLOTS
    requires forall e, k: Key | e in log[start..] && e.slot >= SLOTS && k.slot in slots :: !Writes(e.ops, k)
    ensures forall k: Key | k.slot in slots :: Get(Received(base, log, start, taken, slots), k) == Get(Replay(base, log), k)
  {
    forall k: Key | k.slot in slots
      ensures Get(Received(base, log, start, taken, slots), k) == Get(Replay(base, log), k)
    {
      LastWriteIsThere(log[start..], k);
      AgreesExactlyIfNotLost(base, log, start, taken, slots, k);
    }
  }

  // ---------------------------------------------------------------- one pass over the binlog

  /**
   In the middle of a pass: everything before entry `a` is acknowledged, the cursor is at entry `i`, and the
   entries in `writer` are waiting to be sent. The destination is to end with `want`.
   */
  ghost predicate Sending(want: Store, log: seq<Entry>, slots: set<nat>, remote: Store, writer: seq<Entry>, a: nat, i: nat)
  {
    && a <= i <= |log|
    && AgreeFrom(remote, want, Sent(log[a..], slots), slots)
    && AgreeFrom(Replay(remote, writer), want, Sent(log[i..], slots), slots)
    && (forall e | e in writer :: e in log[a..] && e.slot in slots)
  }

  lemma NextSent(log: seq<Entry>, slots: set<nat>, i: nat)
    requires i < |log|
    ensures Sent(log[i..], slots) == IfSent(log[i], slots) + Sent(log[i + 1..], slots)
  {
    assert log[i..][1..] == log[i + 1..];
  }

  lemma PassOver(want: Store, log: seq<Entry>, slots: set<nat>, remote: Store, writer: seq<Entry>, a: nat, i: nat)
    requires Sending(want, log, slots, remote, writer, a, i) && i < |log| && log[i].slot !in slots
    ensures Sending(want, log, slots, remote, writer, a, i + 1)
  {
    NextSent(log, slots, i);
    assert Sent(log[i..], slots) == Sent(log[i + 1..], slots);
  }

  lemma PutInWriter(image: Store, log: seq<Entry>, start: nat, slots: set<nat>, remote: Store, writer: seq<Entry>, a: nat, i: nat)
    requires start <= i < |log| && log[i].slot in slots
    requires Sending(Replay(image, Sent(log[start..], slots)), log, slots, remote, writer, a, i)
    ensures Sending(Replay(image, Sent(log[start..], slots)), log, slots, remote, writer + [log[i]], a, i + 1)
  {
    WantFrom(image, log, start, slots, i);
    SentNext(Replay(image, Sent(log[start..i], slots)), log[i], Sent(log[i + 1..], slots), remote, writer, slots);
    assert log[i] == log[a..][i - a];
  }

  lemma WantFrom(image: Store, log: seq<Entry>, start: nat, slots: set<nat>, i: nat)
    requires start <= i < |log| && log[i].slot in slots
    ensures Sent(log[i..], slots) == [log[i]] + Sent(log[i + 1..], slots)
    ensures Replay(image, Sent(log[start..], slots))
            == Replay(Replay(image, Sent(log[start..i], slots)), [log[i]] + Sent(log[i + 1..], slots))
  {
    NextSent(log, slots, i);
    assert log[start..] == log[start..i] + log[i..];
    SentAppend(log[start..i], log[i..], slots);
    ReplayAppend(image, Sent(log[start..i], slots), Sent(log[i..], slots));
  }

  lemma SentNext(before: Store, e: Entry, rest: seq<Entry>, remote: Store, writer: seq<Entry>, slots: set<nat>)
    requires AgreeFrom(Replay(remote, writer), Replay(before, [e] + rest), [e] + rest, slots)
    ensures AgreeFrom(Replay(remote, writer + [e]), Replay(before, [e] + rest), rest, slots)
  {
    NextEntryAdvances(Replay(remote, writer), before, e, rest, slots);
    ReplayAppend(remote, writer, [e]);
    assert [e][1..] == [];
  }

  /** After an acknowledgement the pass may start anew from any entry before the cursor. */
  lemma FlushWriter(want: Store, log: seq<Entry>, slots: set<nat>, remote: Store, writer: seq<Entry>, a: nat, i: nat, b: nat)
    requires Sending(want, log, slots, remote, writer, a, i) && b <= i
    ensures Sending(want, log, slots, Replay(remote, writer), [], b, i)
  {
    assert log[b..] == log[b..i] + log[i..];
    SentAppend(log[b..i], log[i..], slots);
    RewindKeepsAgreement(Replay(remote, writer), want, Sent(log[b..i], slots), Sent(log[i..], slots), slots);
  }

  lemma BreakOff(want: Store, log: seq<Entry>, slots: set<nat>, remote: Store, writer: seq<Entry>, a: nat, i: nat, n: nat)
    requires Sending(want, log, slots, remote, writer, a, i) && n <= |writer|
    ensures AgreeFrom(Replay(remote, writer[..n]), want, Sent(log[a..], slots), slots)
  {
    forall e | e in writer[..n] ensures e in Sent(log[a..], slots) {
      assert e in writer;
      SentMeans(log[a..], slots, e);
    }
    ResendKeepsAgreement(remote, want, Sent(log[a..], slots), writer[..n], slots);
  }

  function TopId(log: seq<Entry>): nat
  {
    if log == [] then 0 else log[|log| - 1].id
  }

  /** The id to go on from: the last acknowledged one, if there is any. */
  function Resume(cur: nat, newBinlogId: nat): nat
  {
    if newBinlogId == 0 then cur else newBinlogId
  }

  /** How the ids of a pass relate to its positions; `waiting` says that entries up to `binlogId` wait to be sent. */
  ghost predicate Positioned(log: seq<Entry>, cur: nat, known: nat, newBinlogId: nat, binlogId: nat, waiting: bool, a: nat, i: nat)
  {
    && a == FirstAfter(log, Resume(cur, newBinlogId)) && (newBinlogId == known || cur < newBinlogId <= TopId(log))
    && FirstAfter(log, cur) <= i && FirstAfter(log, binlogId) <= i && (waiting ==> cur < binlogId <= TopId(log))
  }

  /** An entry that is passed over. */
  lemma PositionKeeps(log: seq<Entry>, cur: nat, known: nat, newBinlogId: nat, binlogId: nat, waiting: bool, a: nat, i: nat)
    requires Positioned(log, cur, known, newBinlogId, binlogId, waiting, a, i)
    ensures Positioned(log, cur, known, newBinlogId, binlogId, waiting, a, i + 1)
  {
  }

  /** An entry that is to be sent; `acked` says that it was, with all before it. */
  lemma PositionMoves(log: seq<Entry>, cur: nat, known: nat, newBinlogId: nat, binlogId: nat, waiting: bool, a: nat, i: nat, acked: bool)
    requires Proper(log) && i < |log| && Positioned(log, cur, known, newBinlogId, binlogId, waiting, a, i)
    ensures Positioned(log, cur, known, if acked then log[i].id else newBinlogId, log[i].id, !acked,
                       if acked then i + 1 else a, i + 1)
  {
    BeyondStart(log, cur, i);
    FirstAfterEntry(log, i);
  }

  class Sender {
    const source: Source
    const link: Link
    const slots: set<nat>
    /** When a batch is large enough to be sent. */
    const full: seq<Entry> -> bool
    var curBinlogid: nat
    /** The lengths of the log when the id was captured and when the snapshot was opened. */
    ghost var start: nat
    ghost var taken: nat

    constructor (source: Source, link: Link, slots: set<nat>, full: seq<Entry> -> bool)
      ensures this.source == source && this.link == link && this.slots == slots && this.full == full
    {
      this.source, this.link, this.slots, this.full := source, link, slots, full;
      curBinlogid := 0;
    }

    ghost predicate Ready()
      reads this, source
    {
      && Proper(source.log) && curBinlogid <= source.Highest() && (forall j | j in slots :: j < SLOTS)
      && start <= taken <= |source.log| && start <= FirstAfter(source.log, curBinlogid)
    }

    /** What the destination is to hold. */
    ghost function Want(): Store
      requires start <= |source.log| && taken <= |source.log|
      reads this, source
    {
      Received(source.base, source.log, start, taken, slots)
    }

    /** The destination differs from that only in keys that entries to be sent after the current id write to. */
    ghost predicate Following()
      requires Ready()
      reads this, source, link
    {
      AgreeFrom(link.remote, Want(), Sent(source.log[FirstAfter(source.log, curBinlogid)..], slots), slots)
    }

    /** The destination has everything up to entry `stop`, and the entries from there on have larger ids. */
    ghost predicate CaughtUp(end: nat)
      requires Ready()
      reads this, source, link
    {
      exists stop: nat | stop <= |source.log| ::
        && AgreeFrom(link.remote, Want(), Sent(source.log[stop..], slots), slots)
        && forall e | e in source.log[stop..] :: e.id > end
    }

    /** Sends the waiting entries, the last of which has the given id. */
    method SendWriter(ghost want: Store, log: seq<Entry>, writer: seq<Entry>, binlogId: nat, ghost a: nat, i: nat)
      returns (ok: bool)
      requires Proper(log) && Sending(want, log, slots, link.remote, writer, a, i) && FirstAfter(log, binlogId) <= i
      requires forall j | j in slots :: j < SLOTS
      modifies link
      ensures ok ==> Sending(want, log, slots, link.remote, [], FirstAfter(log, binlogId), i)
      ensures !ok ==> AgreeFrom(link.remote, want, Sent(log[a..], slots), slots)
      ensures SameElsewhere(link.remote, old(link.remote), slots)
      ensures link.Reliable() ==> ok
    {
      ghost var was := link.remote;
      ok := link.Send(writer);
      forall e | e in writer ensures WellFormed(e) { assert e in log[a..]; }
      if ok {
        assert writer[..|writer|] == writer;
        BatchStaysInside(was, writer, slots, |writer|);
        FlushWriter(want, log, slots, was, writer, a, i, FirstAfter(log, binlogId));
      } else {
        ghost var n: nat :| n <= |writer| && link.remote == Replay(was, writer[..n]);
        BatchStaysInside(was, writer, slots, n);
        BreakOff(want, log, slots, was, writer, a, i, n);
      }
    }

    /** Adds the entry at the cursor to the waiting ones, and sends them if they are enough. */
    method WriteEntry(ghost want: Store, log: seq<Entry>, writer: seq<Entry>, ghost a: nat, i: nat)
      returns (ok: bool, rest: seq<Entry>)
      requires Ready() && log == source.log && want == Want() && Sending(want, log, slots, link.remote, writer, a, i)
      requires start <= i < |log| && log[i].slot in slots
      modifies link
      ensures ok ==> Sending(want, log, slots, link.remote, rest, if rest == [] then i + 1 else a, i + 1)
      ensures !ok ==> AgreeFrom(link.remote, want, Sent(log[a..], slots), slots)
      ensures SameElsewhere(link.remote, old(link.remote), slots)
      ensures link.Reliable() ==> ok
    {
      PutInWriter(Replay(source.base, log[..taken]), log, start, slots, link.remote, writer, a, i);
      rest := writer + [log[i]];
      ok := true;
      if full(rest) {
        FirstAfterEntry(log, i);
        ok := SendWriter(want, log, rest, log[i].id, a, i + 1);
        rest := [];
      }
    }

    /** The cursor is at entry `i`, with its ids in their places. */
    ghost predicate Midway(want: Store, log: seq<Entry>, known: nat, newBinlogId: nat, binlogId: nat, writer: seq<Entry>, a: nat, i: nat)
      reads this, link
    {
      && start <= i && Sending(want, log, slots, link.remote, writer, a, i)
      && Positioned(log, curBinlogid, known, newBinlogId, binlogId, writer != [], a, i)
    }

    /** One entry: sent if it is of a migrated slot, passed over otherwise. */
    method OneEntry(ghost want: Store, log: seq<Entry>, ghost known: nat, newId: nat, id: nat, waiting: seq<Entry>, ghost a: nat, i: nat)
      returns (ok: bool, newBinlogId: nat, binlogId: nat, writer: seq<Entry>, ghost b: nat)
      requires Ready() && log == source.log && want == Want() && i < |log|
      requires Midway(want, log, known, newId, id, waiting, a, i)
      modifies link
      ensures ok ==> Midway(want, log, known, newBinlogId, binlogId, writer, b, i + 1)
      ensures !ok ==> newBinlogId == newId && binlogId == id && b == a
                      && AgreeFrom(link.remote, want, Sent(log[a..], slots), slots)
      ensures SameElsewhere(link.remote, old(link.remote), slots)
      ensures link.Reliable() ==> ok
    {
      if log[i].slot !in slots {
        PassOver(want, log, slots, link.remote, waiting, a, i);
        PositionKeeps(log, curBinlogid, known, newId, id, waiting != [], a, i);
        return true, newId, id, waiting, a;
      }
      ok, writer := WriteEntry(want, log, waiting, a, i);
      if !ok { return false, newId, id, writer, a; }
      PositionMoves(log, curBinlogid, known, newId, id, waiting != [], a, i, writer == []);
      binlogId := log[i].id;
      newBinlogId := if writer == [] then binlogId else newId;
      b := if writer == [] then i + 1 else a;
    }

    lemma Begins(known: nat)
      requires Ready() && Following() && (known == 0 || known == curBinlogid)
      ensures var i := FirstAfter(source.log, curBinlogid);
              Midway(Want(), source.log, known, known, curBinlogid, [], i, i)
    {
    }

    /** The pass ended with everything before entry `a` acknowledged, and can be resumed from there. */
    ghost predicate Resumable(want: Store, log: seq<Entry>, known: nat, newBinlogId: nat, a: nat)
      reads this, link
    {
      && a <= |log| && a == FirstAfter(log, Resume(curBinlogid, newBinlogId))
      && (newBinlogId == known || curBinlogid < newBinlogId <= TopId(log))
      && AgreeFrom(link.remote, want, Sent(log[a..], slots), slots)
    }

    /** The cursor loop, up to the first entry beyond `end`; entries of no single slot do not stop it. */
    method WriteEntries(ghost want: Store, log: seq<Entry>, end: nat, known: nat)
      returns (ok: bool, newBinlogId: nat, writer: seq<Entry>, binlogId: nat, ghost a: nat, i: nat)
      requires Ready() && Following() && (known == 0 || known == curBinlogid) && log == source.log && want == Want()
      modifies link
      ensures ok ==> i <= |log| && Midway(want, log, known, newBinlogId, binlogId, writer, a, i)
      ensures ok ==> forall e | e in log[i..] :: e.id > end
      ensures !ok ==> Resumable(want, log, known, newBinlogId, a)
      ensures SameElsewhere(link.remote, old(link.remote), slots)
      ensures link.Reliable() ==> ok
    {
      Begins(known);
      i, a, writer, binlogId := FirstAfter(log, curBinlogid), FirstAfter(log, curBinlogid), [], curBinlogid;
      newBinlogId := known;
      while i < |log|
        invariant i <= |log| && Midway(want, log, known, newBinlogId, binlogId, writer, a, i)
        invariant SameElsewhere(link.remote, old(link.remote), slots)
      {
        if log[i].slot < SLOTS && log[i].id > end { break; }
        ok, newBinlogId, binlogId, writer, a := OneEntry(want, log, known, newBinlogId, binlogId, writer, a, i);
        if !ok { return; }
        i := i + 1;
      }
      LaterIdsAreLarger(log, i, end);
      ok := true;
    }

    method SendSlotsBinlog(end: nat, known: nat) returns (ok: bool, newBinlogId: nat)
      requires Ready() && Following() && (known == 0 || known == curBinlogid)
      modifies link
      ensures newBinlogId == known || curBinlogid < newBinlogId <= source.Highest()
      ensures AgreeFrom(link.remote, Want(),
                        Sent(source.log[FirstAfter(source.log, Resume(curBinlogid, newBinlogId))..], slots), slots)
      ensures ok ==> CaughtUp(end)
      ensures SameElsewhere(link.remote, old(link.remote), slots)
      ensures link.Reliable() ==> ok
    {
      var writer, binlogId, i;
      ghost var a;
      ok, newBinlogId, writer, binlogId, a, i := WriteEntries(Want(), source.log, end, known);
      if !ok { return; }
      if writer != [] {
        ok := SendWriter(Want(), source.log, writer, binlogId, a, i);
        if !ok { return; }
        newBinlogId := binlogId;
      }
    }

    /** Writes of other clients meanwhile. */
    method Others()
      requires Ready() && Following()
      modifies source`log, source`next
      ensures Ready() && Following() && source.Grew(old(source.log), old(source.next))
    {
      ghost var was := source.log;
      source.Progress();
      GrownGrows(was, source.arrivals, old(source.next), source.next, source.locked);
      ghost var more := source.log[|was|..];
      assert source.log == was + more;
      StillFollows(source.base, was, more, start, taken, curBinlogid, link.remote, slots);
    }

    /** One try, after which the current id is that of the last acknowledged entry. */
    method TryOnce(end: nat, known: nat) returns (ok: bool, newBinlogId: nat)
      requires Ready() && Following() && (known == 0 || known == curBinlogid)
      modifies this`curBinlogid, link, source`log, source`next
      ensures Ready() && Following() && source.Grew(old(source.log), old(source.next))
      ensures newBinlogId == 0 || newBinlogId == curBinlogid
      ensures ok ==> CaughtUp(end)
      ensures SameElsewhere(link.remote, old(link.remote), slots)
      ensures link.Reliable() ==> ok
    {
      Others();
      ok, newBinlogId := SendSlotsBinlog(end, known);
      if newBinlogId != 0 {
        FirstAfterGrows(source.log, curBinlogid, newBinlogId);
        curBinlogid := newBinlogId;
      }
    }

    /** Sends what lies between the current id and `end`, trying again from where the last try got to. */
    method CatchupBinlog(end: nat) returns (ok: bool)
      requires Ready() && Following()
      modifies this`curBinlogid, link, source`log, source`next
      ensures Ready() && Following() && source.Grew(old(source.log), old(source.next))
      ensures ok ==> end <= old(curBinlogid) || CaughtUp(end)
      ensures SameElsewhere(link.remote, old(link.remote), slots)
      ensures link.Reliable() ==> ok
    {
      if end <= curBinlogid { return true; }
      var newBinlogId := 0;
      for n := 0 to SEND_RETRY_CNT
        invariant Ready() && Following() && (newBinlogId == 0 || newBinlogId == curBinlogid)
        invariant source.Grew(old(source.log), old(source.next)) && SameElsewhere(link.remote, old(link.remote), slots)
        invariant n > 0 ==> !link.Reliable()
      {
        ghost var next := source.next;
        ok, newBinlogId := TryOnce(end, newBinlogId);
        GrownTwice(old(source.log), source.arrivals, old(source.next), next, source.next, source.locked);
        if ok { return; }
      }
      return false;
    }

    method SendSlot(snapshot: Store, j: nat) returns (ok: bool)
      requires j in slots
      modifies link
      ensures SameElsewhere(link.remote, old(link.remote), slots)
      ensures ok ==> forall k: Key :: Get(link.remote, k) ==
                       if k.slot == j && k in snapshot then Some(snapshot[k]) else Get(old(link.remote), k)
      ensures link.Reliable() ==> ok
    {
      var records := map k | k in snapshot && k.slot == j :: snapshot[k];
      ok := link.SendRange(records);
      ghost var part: Store :| part.Items <= records.Items && link.remote == old(link.remote) + part;
      forall k: Key | k in part ensures k.slot == j { assert (k, part[k]) in part.Items; }
    }

    /** The snapshot, slot by slot, while other clients write. */
    method SendSlots(snapshot: Store) returns (ok: bool)
      requires forall j | j in slots :: j < SLOTS
      requires forall k | k in link.remote :: k.slot !in slots
      modifies link, source`log, source`next
      ensures source.Grew(old(source.log), old(source.next))
      ensures ok ==> forall k: Key | k.slot in slots :: Get(link.remote, k) == Get(snapshot, k)
      ensures ok && slots != {} ==> source.next > old(source.next)
      ensures SameElsewhere(link.remote, old(link.remote), slots)
      ensures link.Reliable() ==> ok
    {
      for j := 0 to SLOTS
        invariant source.Grew(old(source.log), old(source.next))
        invariant forall k: Key | k.slot in slots :: Get(link.remote, k) == if k.slot < j then Get(snapshot, k) else None
        invariant SameElsewhere(link.remote, old(link.remote), slots)
        invariant source.next > old(source.next) || forall s | s in slots :: s >= j
      {
        if j in slots {
          ok := SendSlot(snapshot, j);
          if !ok { return; }
          ghost var next := source.next;
          source.Progress();
          GrownTwice(old(source.log), source.arrivals, old(source.next), next, source.next, source.locked);
        }
      }
      ok := true;
    }

    /** Capture the current id first, then open the snapshot, then send it. */
    method SendSnapshot() returns (ok: bool)
      requires Proper(source.log) && (forall j | j in slots :: j < SLOTS)
      requires forall k | k in link.remote :: k.slot !in slots
      modifies this`curBinlogid, this`start, this`taken, link, source`log, source`next
      ensures source.Grew(old(source.log), old(source.next))
      ensures start == |old(source.log)|
      ensures taken == |Grown(old(source.log), source.arrivals, old(source.next), old(source.next) + 1, source.locked)|
      ensures ok ==> Ready() && Following()
      ensures ok && slots != {} ==> source.next >= old(source.next) + 2
      ensures SameElsewhere(link.remote, old(link.remote), slots)
      ensures link.Reliable() ==> ok
    {
      curBinlogid := source.Highest();
      start := |source.log|;
      source.Progress();
      taken := |source.log|;
      ghost var seen, next := source.log, source.next;
      var snapshot := source.Now();
      GrownGrows(old(source.log), source.arrivals, old(source.next), next, source.locked);
      ok := SendSlots(snapshot);
      GrownTwice(old(source.log), source.arrivals, old(source.next), next, source.next, source.locked);
      GrownGrows(seen, source.arrivals, next, source.next, source.locked);
      if ok { SnapshotFollows(old(source.log), seen, snapshot); }
    }

    lemma SnapshotFollows(first: seq<Entry>, seen: seq<Entry>, snapshot: Store)
      requires Proper(source.log) && first <= seen <= source.log && snapshot == Replay(source.base, seen)
      requires start == |first| && taken == |seen| && curBinlogid == TopId(first) && forall j | j in slots :: j < SLOTS
      requires forall k: Key | k.slot in slots :: Get(link.remote, k) == Get(snapshot, k)
      ensures Ready() && Following()
    {
      CaptureIsEarly(first, source.log, curBinlogid);
      assert source.log[..taken] == seen;
      SnapshotAgrees(snapshot, Sent(source.log[start..], slots), link.remote, slots);
    }

    /** Rounds of catching up, until the distance is small. */
    method SendBinlog(distance: nat, iterNum: nat) returns (ok: bool)
      requires Ready() && Following()
      modifies this`curBinlogid, link, source`log, source`next
      ensures Ready() && Following() && SameElsewhere(link.remote, old(link.remote), slots)
      ensures source.Grew(old(source.log), old(source.next))
      ensures ok ==> source.Highest() - curBinlogid <= distance
      ensures link.Reliable() && !ok ==> iterNum == 0 || source.Highest() - curBinlogid > distance
    {
      var high: nat := source.Highest();
      var times := 0;
      while times < iterNum
        invariant Ready() && Following() && SameElsewhere(link.remote, old(link.remote), slots)
        invariant source.Grew(old(source.log), old(source.next))
        invariant times > 0 ==> source.Highest() - curBinlogid > distance
      {
        ghost var next := source.next;
        ok := CatchupBinlog(high);
        GrownTwice(old(source.log), source.arrivals, old(source.next), next, source.next, source.locked);
        if !ok { return false; }
        times := times + 1;
        next := source.next;
        Others();
        GrownTwice(old(source.log), source.arrivals, old(source.next), next, source.next, source.locked);
        high := source.Highest();
        if high - curBinlogid <= distance { return true; }
      }
      return false;
    }

    /** Under the locks: when the last round succeeds, the destination has received everything. */
    method SendLastBinlog() returns (ok: bool)
      requires Ready() && Following() && slots <= source.locked
      modifies this`curBinlogid, link, source`log, source`next
      ensures Ready() && Following() && SameElsewhere(link.remote, old(link.remote), slots)
      ensures source.Grew(old(source.log), old(source.next))
      ensures ok ==> forall k: Key | k.slot in slots :: Get(link.remote, k) == Get(Want(), k)
      ensures link.Reliable() ==> ok
    {
      ghost var was := source.log;
      var end := source.Highest() + 1;
      ok := CatchupBinlog(end);
      GrownGrows(was, source.arrivals, old(source.next), source.next, source.locked);
      if ok { NothingIsMissing(was, end); }
    }

    lemma NothingIsMissing(was: seq<Entry>, end: nat)
      requires Ready() && CaughtUp(end) && was <= source.log && slots <= source.locked && TopId(was) < end
      requires forall e | e in source.log[|was|..] :: Free(e, source.locked)
      ensures forall k: Key | k.slot in slots :: Get(link.remote, k) == Get(Want(), k)
    {
      var stop: nat :| stop <= |source.log| && AgreeFrom(link.remote, Want(), Sent(source.log[stop..], slots), slots)
                       && forall e | e in source.log[stop..] :: e.id > end;
      NewEntriesOnly(was, source.log, stop, end, slots, source.locked);
      assert Sent(source.log[stop..], slots) == [];
      forall k: Key | k.slot in slots ensures Get(link.remote, k) == Get(Want(), k) { assert !Touched([], k); }
    }

    /**
     Snapshot, rounds, locks, last round. On success the destination has received everything that is sent, and a
     migrated key is there what it is on the source exactly if it is not lost. `mid` groups of other clients'
     writes had been tried when the slots were locked.
     */
    method MigrateData(distance: nat, iterNum: nat) returns (ok: bool, ghost mid: nat)
      requires Proper(source.log) && (forall j | j in slots :: j < SLOTS)
      requires forall k | k in link.remote :: k.slot !in slots
      modifies this`curBinlogid, this`start, this`taken, link, source`log, source`next, source`locked
      ensures SameElsewhere(link.remote, old(link.remote), slots)
      ensures ok ==> slots <= source.locked && Ready() && start == |old(source.log)|
      ensures ok ==> forall k: Key | k.slot in slots :: Get(link.remote, k) == Get(Want(), k)
      ensures ok ==> forall k: Key | k.slot in slots ::
                       Get(link.remote, k) == Get(source.Now(), k)
                       <==> !Lost(source.base, source.log, start, taken, slots, k)
      ensures old(source.next) <= mid && source.Grew(Grown(old(source.log), source.arrivals, old(source.next), mid, old(source.locked)), mid)
      ensures taken == |Grown(old(source.log), source.arrivals, old(source.next), old(source.next) + 1, old(source.locked))|
      ensures ok && slots != {} ==> mid >= old(source.next) + 2
      ensures link.Reliable() && !ok ==> iterNum == 0 || source.Highest() - curBinlogid > distance
    {
      ok := SendSnapshot();
      mid := source.next;
      if !ok { return; }
      ok := SendBinlog(distance, iterNum);
      GrownTwice(old(source.log), source.arrivals, old(source.next), mid, source.next, source.locked);
      mid := source.next;
      if !ok { return; }
      source.locked := source.locked + slots;
      ghost var log := source.log;
      Others();
      ghost var next := source.next;
      ok := SendLastBinlog();
      GrownTwice(log, source.arrivals, mid, next, source.next, source.locked);
      if ok { SameUnlessLost(); }
    }

    lemma SameUnlessLost()
      requires Ready() && forall k: Key | k.slot in slots :: Get(link.remote, k) == Get(Want(), k)
      ensures forall k: Key | k.slot in slots ::
                Get(link.remote, k) == Get(source.Now(), k) <==> !Lost(source.base, source.log, start, taken, slots, k)
    {
      forall k: Key | k.slot in slots
        ensures Get(link.remote, k) == Get(source.Now(), k) <==> !Lost(source.base, source.log, start, taken, slots, k)
      {
        AgreesExactlyIfNotLost(source.base, source.log, start, taken, slots, k);
      }
    }
  }

  lemma StillFollows(base: Store, was: seq<Entry>, more: seq<Entry>, start: nat, taken: nat, cur: nat, remote: Store, slots: set<nat>)
    requires Proper(was + more) && cur <= TopId(was) && start <= taken <= |was| && start <= FirstAfter(was, cur)
    requires AgreeFrom(remote, Received(base, was, start, taken, slots), Sent(was[FirstAfter(was, cur)..], slots), slots)
    ensures FirstAfter(was + more, cur) == FirstAfter(was, cur) && cur <= TopId(was + more)
    ensures AgreeFrom(remote, Received(base, was + more, start, taken, slots),
                      Sent((was + more)[FirstAfter(was + more, cur)..], slots), slots)
  {
    StillAhead(was, more, cur);
    MoreIsSent(was, more, FirstAfter(was, cur), slots);
    ReceivedGrows(base, was, more, start, taken, slots);
    WritesKeepAgreement(remote, Received(base, was, start, taken, slots), Sent(was[FirstAfter(was, cur)..], slots),
                        Sent(more, slots), slots);
  }

  lemma StillAhead(was: seq<Entry>, more: seq<Entry>, cur: nat)
    requires Proper(was + more) && cur <= TopId(was)
    ensures FirstAfter(was + more, cur) == FirstAfter(was, cur) && cur <= TopId(was + more)
  {
    SeekIgnoresLater(was, more, cur, 0);
    if was != [] && more != [] { assert (was + more)[|was| - 1].id < (was + more)[|was + more| - 1].id; }
  }

  lemma ReceivedGrows(base: Store, was: seq<Entry>, more: seq<Entry>, start: nat, taken: nat, slots: set<nat>)
    requires start <= |was| && taken <= |was|
    ensures Received(base, was + more, start, taken, slots)
            == Replay(Received(base, was, start, taken, slots), Sent(more, slots))
  {
    MoreIsSent(was, more, start, slots);
    assert (was + more)[..taken] == was[..taken];
    ReplayAppend(Replay(base, was[..taken]), Sent(was[start..], slots), Sent(more, slots));
  }

  lemma MoreIsSent(was: seq<Entry>, more: seq<Entry>, i: nat, slots: set<nat>)
    requires i <= |was|
    ensures Sent((was + more)[i..], slots) == Sent(was[i..], slots) + Sent(more, slots)
  {
    assert (was + more)[i..] == was[i..] + more;
    SentAppend(was[i..], more, slots);
  }

  /** Entries that the snapshot already has may be sent again. */
  lemma SnapshotAgrees(image: Store, rest: seq<Entry>, remote: Store, slots: set<nat>)
    requires forall k: Key | k.slot in slots :: Get(remote, k) == Get(image, k)
    ensures AgreeFrom(remote, Replay(image, rest), rest, slots)
  {
    WritesKeepAgreement(remote, image, [], rest, slots);
    assert [] + rest == rest;
  }

  lemma CaptureIsEarly(first: seq<Entry>, log: seq<Entry>, pos: nat)
    requires first <= log && Proper(log) && pos == TopId(first)
    ensures FirstAfter(log, pos) == |first| && pos <= TopId(log)
  {
    SeekFinds(log, pos, 0);
    if first == [] {
      if log != [] { assert WellFormed(log[0]); }
    } else {
      FirstAfterEntry(log, |first| - 1);
    }
  }

  lemma NewEntriesOnly(was: seq<Entry>, log: seq<Entry>, stop: nat, end: nat, slots: set<nat>, locked: set<nat>)
    requires was <= log && stop <= |log| && Proper(log) && slots <= locked && TopId(was) < end
    requires forall e | e in log[|was|..] :: Free(e, locked)
    requires forall e | e in log[stop..] :: e.id > end
    ensures Sent(log[stop..], slots) == []
  {
    forall e | e in log[stop..] ensures e.slot !in slots {
      var i :| stop <= i < |log| && log[i] == e;
      assert i >= |was|;
      assert e == log[|was|..][i - |was|];
      assert Free(e, locked);
    }
    NoneIsSent(log[stop..], slots);
  }

  lemma {:induction false} NoneIsSent(log: seq<Entry>, slots: set<nat>)
    requires forall e | e in log :: e.slot !in slots
    ensures Sent(log, slots) == []
    decreases |log|
  {
    if log != [] { NoneIsSent(log[1..], slots); }
  }

  // ---------------------------------------------------------------- a write that gets lost

  /**
   While one slot is migrated, a transaction that is logged without a slot writes to one of its keys after the
   snapshot was opened. Every message is acknowledged and the migration succeeds, and the destination has what the
   key held before that.
   */
  method PassedOverWriteIsLost(base: Store, op: Op) returns (ok: bool, dst: Option<string>, src: Option<string>)
    requires op.key.slot < SLOTS
    ensures ok && dst == Get(base, op.key) && src == Get(ApplyOp(base, op), op.key)
  {
    var e := Entry(1, SLOTS, [op]);
    var source := new Source(base, [[], [e]]);
    var link := new Link(map[], (n: nat) => Acked);
    var sender := new Sender(source, link, {op.key.slot}, (batch: seq<Entry>) => false);
    ghost var mid;
    ok, mid := sender.MigrateData(1, 1);
    ScenarioLog(e, mid, source.next, source.locked);
    assert ok;
    OnlyPassedOver(base, e, {op.key.slot});
    dst, src := Get(link.remote, op.key), Get(source.Now(), op.key);
  }

  lemma OnlyPassedOver(base: Store, e: Entry, slots: set<nat>)
    requires |e.ops| == 1 && e.slot !in slots
    ensures Received(base, [e], 0, 0, slots) == base && Replay(base, [e]) == ApplyOp(base, e.ops[0])
  {
    assert [e][..0] == [] && [e][0..] == [e] && [e][1..] == [] && e.ops[1..] == [];
    assert Replay(base, [e]) == ApplyOps(base, e.ops) == ApplyOps(ApplyOp(base, e.ops[0]), []);
    assert Sent([e], slots) == [];
  }

  lemma ScenarioLog(e: Entry, mid: nat, next: nat, locked: set<nat>)
    requires e.id == 1 && e.slot == SLOTS && mid <= next
    ensures var log := Grown(Grown([], [[], [e]], 0, mid, {}), [[], [e]], mid, next, locked);
            TopId(log) <= 1 && (mid >= 2 ==> log == [e])
    ensures Grown([], [[], [e]], 0, 1, {}) == []
  {
    var arrivals: seq<seq<Entry>> := [[], [e]];
    FirstTwo(e, arrivals);
    if mid >= 2 {
      GrownTwice([], arrivals, 0, 2, mid, {});
      NoMoreArrivals([e], arrivals, 2, mid, {});
      NoMoreArrivals([e], arrivals, mid, next, locked);
    } else {
      ShortLog([], arrivals, mid, next, locked, e);
    }
  }

  lemma FirstTwo(e: Entry, arrivals: seq<seq<Entry>>)
    requires e.id == 1 && e.slot == SLOTS && arrivals == [[], [e]]
    ensures Grown([], arrivals, 0, 0, {}) == Grown([], arrivals, 0, 1, {}) == [] && Grown([], arrivals, 0, 2, {}) == [e]
  {
    var none: seq<Entry> := [];
    assert none + arrivals[0] == none && none + arrivals[1] == [e];
    assert Grown(none, arrivals, 0, 0, {}) == none;
    assert Grown(none, arrivals, 0, 1, {}) == none;
    assert Admits(none, arrivals[1], {});
  }

  lemma {:induction false} ShortLog(log: seq<Entry>, arrivals: seq<seq<Entry>>, from: nat, until: nat, locked: set<nat>, e: Entry)
    requires from <= until && arrivals == [[], [e]] && log == []
    ensures Grown(log, arrivals, from, until, locked) == [] || Grown(log, arrivals, from, until, locked) == [e]
    decreases until
  {
    if from < until {
      ShortLog(log, arrivals, from, until - 1, locked, e);
      assert [] + [e] == [e];
      if until - 1 == 1 && from < 1 { assert Grown(log, arrivals, from, 1, locked) == []; }
    }
  }
}
