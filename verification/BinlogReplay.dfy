/**
 Stores, binlog entries and what replaying them does. `AgreeFrom` is the invariant of a migration: the
 destination may differ from the source only in keys that entries still to be sent write to. Writes on
 the source, lost or repeated batches and rewinding all keep it; sending the next entry narrows it.
 */
module BinlogReplay {
  import opened Names

  datatype Key = Key(slot: nat, name: string)

  type Store = map<Key, string>

  datatype Op = Put(key: Key, value: string) | Del(key: Key)

  /** One committed transaction; `slot` is its chunk id, beyond the slots for entries of no single slot. */
  datatype Entry = Entry(id: nat, slot: nat, ops: seq<Op>)

  function Get(s: Store, k: Key): Option<string>
  {
    if k in s then Some(s[k]) else None
  }

  function ApplyOp(s: Store, op: Op): Store
  {
    match op
    case Put(k, v) => s[k := v]
    case Del(k) => s - {k}
  }

  function ApplyOps(s: Store, ops: seq<Op>): Store
    decreases |ops|
  {
    if ops == [] then s else ApplyOps(ApplyOp(s, ops[0]), ops[1..])
  }

  function Replay(s: Store, log: seq<Entry>): Store
    decreases |log|
  {
    if log == [] then s else Replay(ApplyOps(s, log[0].ops), log[1..])
  }

  predicate Writes(ops: seq<Op>, k: Key)
  {
    exists op | op in ops :: op.key == k
  }

  predicate Touched(log: seq<Entry>, k: Key)
  {
    exists e | e in log :: Writes(e.ops, k)
  }

  lemma {:induction false} UnwrittenKeyStays(s: Store, ops: seq<Op>, k: Key)
    requires !Writes(ops, k)
    ensures Get(ApplyOps(s, ops), k) == Get(s, k)
    decreases |ops|
  {
    if ops != [] {
      assert ops[0] in ops;
      UnwrittenKeyStays(ApplyOp(s, ops[0]), ops[1..], k);
    }
  }

  /** What a written key holds afterwards does not depend on the store the entry was applied to. */
  lemma {:induction false} WrittenKeyIsFixed(s: Store, t: Store, ops: seq<Op>, k: Key)
    requires Writes(ops, k)
    ensures Get(ApplyOps(s, ops), k) == Get(ApplyOps(t, ops), k)
    decreases |ops|
  {
    var s1, t1 := ApplyOp(s, ops[0]), ApplyOp(t, ops[0]);
    if Writes(ops[1..], k) {
      WrittenKeyIsFixed(s1, t1, ops[1..], k);
    } else {
      UnwrittenKeyStays(s1, ops[1..], k);
      UnwrittenKeyStays(t1, ops[1..], k);
      var op :| op in ops && op.key == k;
      assert ops == [ops[0]] + ops[1..];
      assert op == ops[0];
    }
  }

  lemma {:induction false} UntouchedKeyStays(s: Store, log: seq<Entry>, k: Key)
    requires !Touched(log, k)
    ensures Get(Replay(s, log), k) == Get(s, k)
    decreases |log|
  {
    if log != [] {
      assert log[0] in log;
      UnwrittenKeyStays(s, log[0].ops, k);
      UntouchedKeyStays(ApplyOps(s, log[0].ops), log[1..], k);
    }
  }

  lemma {:induction false} ReplayAppend(s: Store, a: seq<Entry>, b: seq<Entry>)
    ensures Replay(s, a + b) == Replay(Replay(s, a), b)
    decreases |a|
  {
    if a == [] {
      assert a + b == b;
    } else {
      assert (a + b)[1..] == a[1..] + b;
      ReplayAppend(ApplyOps(s, a[0].ops), a[1..], b);
    }
  }

  // ---------------------------------------------------------------- the invariant

  /** Outside the keys that `rest` writes to, the migrated slots look the same in both stores. */
  ghost predicate AgreeFrom(dst: Store, src: Store, rest: seq<Entry>, slots: set<nat>)
  {
    forall k: Key {:trigger Get(dst, k)} | k.slot in slots && !Touched(rest, k) :: Get(dst, k) == Get(src, k)
  }

  /** New writes on the source. */
  lemma WritesKeepAgreement(dst: Store, src: Store, rest: seq<Entry>, more: seq<Entry>, slots: set<nat>)
    requires AgreeFrom(dst, src, rest, slots)
    ensures AgreeFrom(dst, Replay(src, more), rest + more, slots)
  {
    forall k: Key | k.slot in slots && !Touched(rest + more, k) ensures Get(dst, k) == Get(Replay(src, more), k) {
      forall e | e in rest ensures !Writes(e.ops, k) { assert e in rest + more; }
      forall e | e in more ensures !Writes(e.ops, k) { assert e in rest + more; }
      UntouchedKeyStays(src, more, k);
    }
  }

  /** Starting again from an earlier entry. */
  lemma RewindKeepsAgreement(dst: Store, src: Store, back: seq<Entry>, rest: seq<Entry>, slots: set<nat>)
    requires AgreeFrom(dst, src, rest, slots)
    ensures AgreeFrom(dst, src, back + rest, slots)
  {
    forall k: Key | k.slot in slots && !Touched(back + rest, k) ensures Get(dst, k) == Get(src, k) {
      forall e | e in rest ensures !Writes(e.ops, k) { assert e in back + rest; }
    }
  }

  /** A batch of entries still to be sent, in any order and however often. */
  lemma ResendKeepsAgreement(dst: Store, src: Store, rest: seq<Entry>, batch: seq<Entry>, slots: set<nat>)
    requires AgreeFrom(dst, src, rest, slots) && forall e | e in batch :: e in rest
    ensures AgreeFrom(Replay(dst, batch), src, rest, slots)
  {
    forall k: Key | k.slot in slots && !Touched(rest, k) ensures Get(Replay(dst, batch), k) == Get(src, k) {
      forall e | e in batch ensures !Writes(e.ops, k) { assert e in rest; }
      UntouchedKeyStays(dst, batch, k);
    }
  }

  /** The next entry, applied in its place, settles the keys that nothing after it writes to. */
  lemma NextEntryAdvances(dst: Store, before: Store, e: Entry, rest: seq<Entry>, slots: set<nat>)
    requires AgreeFrom(dst, Replay(before, [e] + rest), [e] + rest, slots)
    ensures AgreeFrom(ApplyOps(dst, e.ops), Replay(before, [e] + rest), rest, slots)
  {
    var src := Replay(before, [e] + rest);
    assert src == Replay(ApplyOps(before, e.ops), rest) by { assert ([e] + rest)[1..] == rest; }
    forall k: Key | k.slot in slots && !Touched(rest, k) ensures Get(ApplyOps(dst, e.ops), k) == Get(src, k) {
      UntouchedKeyStays(ApplyOps(before, e.ops), rest, k);
      if Writes(e.ops, k) {
        WrittenKeyIsFixed(dst, before, e.ops, k);
      } else {
        UnwrittenKeyStays(dst, e.ops, k);
        UnwrittenKeyStays(before, e.ops, k);
        forall d | d in [e] + rest ensures !Writes(d.ops, k) { assert d == e || d in rest; }
      }
    }
  }

  // ---------------------------------------------------------------- what is sent

  /** The entries of the migrated slots; those of other slots and of no single slot are passed over. */
  function Sent(log: seq<Entry>, slots: set<nat>): seq<Entry>
  {
    if log == [] then []
    else IfSent(log[0], slots) + Sent(log[1..], slots)
  }

  function IfSent(e: Entry, slots: set<nat>): seq<Entry>
  {
    if e.slot in slots then [e] else []
  }

  lemma Regroup(a: seq<Entry>, b: seq<Entry>, c: seq<Entry>)
    ensures (a + b) + c == a + (b + c)
  {
  }

  lemma {:induction false} SentAppend(a: seq<Entry>, b: seq<Entry>, slots: set<nat>)
    ensures Sent(a + b, slots) == Sent(a, slots) + Sent(b, slots)
    decreases |a|
  {
    if a == [] {
      assert a + b == b;
    } else {
      assert (a + b)[1..] == a[1..] + b;
      SentAppend(a[1..], b, slots);
      Regroup(IfSent(a[0], slots), Sent(a[1..], slots), Sent(b, slots));
    }
  }

  lemma {:induction false} SentMeans(log: seq<Entry>, slots: set<nat>, e: Entry)
    ensures e in Sent(log, slots) <==> e in log && e.slot in slots
    decreases |log|
  {
    if log != [] {
      SentMeans(log[1..], slots, e);
      assert log == [log[0]] + log[1..];
    }
  }

  // ---------------------------------------------------------------- the last write to a key

  function LastWrite(log: seq<Entry>, k: Key): Option<Entry>
    decreases |log|
  {
    if log == [] then None
    else if Writes(log[|log| - 1].ops, k) then Some(log[|log| - 1])
    else LastWrite(log[..|log| - 1], k)
  }

  /** What an entry that writes the key leaves there. */
  function Outcome(e: Entry, k: Key): Option<string>
  {
    Get(ApplyOps(map[], e.ops), k)
  }

  /** What a log leaves of a key: the outcome of the last write, or what was there before. */
  function LeftBy(before: Option<string>, log: seq<Entry>, k: Key): Option<string>
  {
    var w := LastWrite(log, k);
    if w.Some? then Outcome(w.value, k) else before
  }

  lemma {:induction false} ReplayLeaves(s: Store, log: seq<Entry>, k: Key)
    ensures Get(Replay(s, log), k) == LeftBy(Get(s, k), log, k)
    decreases |log|
  {
    if log != [] {
      var front, e := log[..|log| - 1], log[|log| - 1];
      assert log == front + [e] && [e][1..] == [];
      ReplayAppend(s, front, [e]);
      assert Replay(Replay(s, front), [e]) == ApplyOps(Replay(s, front), e.ops);
      if Writes(e.ops, k) {
        WrittenKeyIsFixed(Replay(s, front), map[], e.ops, k);
      } else {
        UnwrittenKeyStays(Replay(s, front), e.ops, k);
        ReplayLeaves(s, front, k);
      }
    }
  }

  lemma {:induction false} LastWriteIsThere(log: seq<Entry>, k: Key)
    ensures LastWrite(log, k).Some? <==> Touched(log, k)
    ensures LastWrite(log, k).Some? ==> LastWrite(log, k).value in log && Writes(LastWrite(log, k).value.ops, k)
    decreases |log|
  {
    if log != [] {
      var front, e := log[..|log| - 1], log[|log| - 1];
      assert log == front + [e];
      LastWriteIsThere(front, k);
    }
  }

  /** A last write that is sent is the last one among those that are. */
  lemma {:induction false} LastWriteIsSent(log: seq<Entry>, slots: set<nat>, k: Key)
    requires LastWrite(log, k).None? || LastWrite(log, k).value.slot in slots
    ensures LastWrite(Sent(log, slots), k) == LastWrite(log, k)
    decreases |log|
  {
    if log != [] {
      var front, e := log[..|log| - 1], log[|log| - 1];
      assert log == front + [e] && [e][1..] == [];
      SentAppend(front, [e], slots);
      var sent := Sent(front, slots);
      assert Sent(log, slots) == if e.slot in slots then sent + [e] else sent;
      assert (sent + [e])[..|sent|] == sent;
      if !Writes(e.ops, k) { LastWriteIsSent(front, slots, k); }
    }
  }
}
