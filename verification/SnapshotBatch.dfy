/**
 Sending a snapshot: the records of a slot either one by one, or packed into buffers of a limited size. The
 receiver parses the byte stream and writes records, TTL index entries and a count. Both ways have the same
 effect, which is the effect of supplying the records one after the other.
 */
module SnapshotBatch {
  import opened Names
  import opened Bytes

  const UINT32 := 0x1_0000_0000

  datatype Rec = Rec(key: Buf, value: Buf)

  // ---------------------------------------------------------------- supplying one record

  datatype KeyInfo = KeyInfo(slot: nat, db: nat, primary: Buf, meta: bool)

  /** `plain` is the type of a string record, which has no TTL index. */
  datatype ValueInfo = ValueInfo(kind: nat, plain: bool, ttl: nat)

  /** How keys and values are decoded, and which slots may be received. */
  datatype Rules = Rules(decodeKey: Buf -> Option<KeyInfo>, decodeValue: Buf -> Option<ValueInfo>, slots: set<nat>)

  datatype TtlIndex = TtlIndex(primary: Buf, kind: nat, db: nat, ttl: nat)

  datatype Dest = Dest(store: map<Buf, Buf>, index: set<TtlIndex>, count: nat)

  function Put(rules: Rules, d: Dest, r: Rec): Option<Dest>
  {
    var k, v := rules.decodeKey(r.key), rules.decodeValue(r.value);
    if k.None? || v.None? || k.value.slot !in rules.slots then None
    else
      var entry := TtlIndex(k.value.primary, v.value.kind, k.value.db, v.value.ttl);
      Some(Dest(d.store[r.key := r.value],
                if k.value.meta && v.value.ttl > 0 && !v.value.plain then d.index + {entry} else d.index,
                d.count + 1))
  }

  datatype Outcome = Outcome(dest: Dest, ok: bool)

  /** Record by record, up to the first one that is refused. */
  function SupplyAll(rules: Rules, d: Dest, rs: seq<Rec>): Outcome
    decreases |rs|
  {
    if rs == [] then Outcome(d, true)
    else
      match Put(rules, d, rs[0])
      case None => Outcome(d, false)
      case Some(e) => SupplyAll(rules, e, rs[1..])
  }

  lemma {:induction false} SupplyAppend(rules: Rules, d: Dest, a: seq<Rec>, b: seq<Rec>)
    ensures SupplyAll(rules, d, a + b) ==
            if SupplyAll(rules, d, a).ok then SupplyAll(rules, SupplyAll(rules, d, a).dest, b) else SupplyAll(rules, d, a)
    decreases |a|
  {
    if a == [] {
      assert a + b == b;
    } else {
      assert (a + b)[1..] == a[1..] + b;
      var e := Put(rules, d, a[0]);
      if e.Some? { SupplyAppend(rules, e.value, a[1..], b); }
    }
  }

  // ---------------------------------------------------------------- batches

  function EncodeRec(r: Rec): Buf
  {
    Le(|r.key|, 4) + r.key + Le(|r.value|, 4) + r.value
  }

  function EncodeRecs(rs: seq<Rec>): Buf
  {
    if rs == [] then [] else EncodeRec(rs[0]) + EncodeRecs(rs[1..])
  }

  lemma {:induction false} EncodeAppend(rs: seq<Rec>, r: Rec)
    ensures EncodeRecs(rs + [r]) == EncodeRecs(rs) + EncodeRec(r)
  {
    if rs == [] {
      assert rs + [r] == [r] && [r][1..] == [];
    } else {
      assert (rs + [r])[1..] == rs[1..] + [r];
      EncodeAppend(rs[1..], r);
    }
  }

  lemma EncodingHasBytes(rs: seq<Rec>)
    ensures |EncodeRecs(rs)| == 0 ==> rs == []
  {
    if rs != [] { assert |EncodeRec(rs[0])| >= 8; }
  }

  /** One item of a batch: the record and what follows it. */
  function ParseRec(b: Buf): Option<(Rec, Buf)>
  {
    if |b| < 4 then None
    else
      var keyLen := FromLe(b[..4]);
      if |b| < 4 + keyLen + 4 then None
      else
        var valueLen := FromLe(b[4 + keyLen..8 + keyLen]);
        if |b| < 8 + keyLen + valueLen then None
        else Some((Rec(b[4..4 + keyLen], b[8 + keyLen..8 + keyLen + valueLen]), b[8 + keyLen + valueLen..]))
  }

  lemma ParseEncoded(r: Rec, rest: Buf)
    requires |r.key| < UINT32 && |r.value| < UINT32
    ensures ParseRec(EncodeRec(r) + rest) == Some((r, rest))
  {
    var b, k, v := EncodeRec(r) + rest, |r.key|, |r.value|;
    assert Pow256(4) == UINT32;
    LeRoundTrip(k, 4);
    LeRoundTrip(v, 4);
    assert b[..4] == Le(k, 4);
    assert b[4..4 + k] == r.key;
    assert b[4 + k..8 + k] == Le(v, 4);
    assert b[8 + k..8 + k + v] == r.value;
    assert b[8 + k + v..] == rest;
  }

  /** A batch is one transaction: all of its records, or none. */
  function PutBatch(rules: Rules, d: Dest, payload: Buf): Option<Dest>
    decreases |payload|
  {
    if payload == [] then Some(d)
    else
      var p := ParseRec(payload);
      if p.None? then None
      else
        var e := Put(rules, d, p.value.0);
        if e.None? then None else PutBatch(rules, e.value, p.value.1)
  }

  ghost predicate Fitting(rs: seq<Rec>)
  {
    forall r | r in rs :: |r.key| < UINT32 && |r.value| < UINT32
  }

  lemma {:induction false} BatchIsItsRecords(rules: Rules, d: Dest, rs: seq<Rec>)
    requires Fitting(rs)
    ensures PutBatch(rules, d, EncodeRecs(rs)) ==
            if SupplyAll(rules, d, rs).ok then Some(SupplyAll(rules, d, rs).dest) else None
    decreases |rs|
  {
    if rs != [] {
      ParseEncoded(rs[0], EncodeRecs(rs[1..]));
      var e := Put(rules, d, rs[0]);
      if e.Some? { BatchIsItsRecords(rules, e.value, rs[1..]); }
    }
  }

  // ---------------------------------------------------------------- the stream

  /** What the sender writes for a range of records, before the mark that ends the range. */
  datatype Msg = One(r: Rec) | Sync | Batch(rs: seq<Rec>)

  function EncodeMsg(m: Msg): Buf
  {
    match m
    case One(r) => ['0' as int] + EncodeRec(r)
    case Sync => ['1' as int]
    case Batch(rs) => Tagged(EncodeRecs(rs))
  }

  function Tagged(payload: Buf): Buf
  {
    ['5' as int] + Le(|payload|, 4) + payload
  }

  function EncodeMsgs(ms: seq<Msg>): Buf
  {
    if ms == [] then [] else EncodeMsg(ms[0]) + EncodeMsgs(ms[1..])
  }

  function Records(m: Msg): seq<Rec>
  {
    match m
    case One(r) => [r]
    case Sync => []
    case Batch(rs) => rs
  }

  function Content(ms: seq<Msg>): seq<Rec>
  {
    if ms == [] then [] else Records(ms[0]) + Content(ms[1..])
  }

  ghost predicate Sendable(m: Msg)
  {
    match m
    case One(r) => Fitting([r])
    case Sync => true
    case Batch(rs) => Fitting(rs) && |EncodeRecs(rs)| < UINT32
  }

  lemma {:induction false} MsgAppend(ms: seq<Msg>, m: Msg)
    ensures EncodeMsgs(ms + [m]) == EncodeMsgs(ms) + EncodeMsg(m)
    ensures Content(ms + [m]) == Content(ms) + Records(m)
  {
    AppendMsg(ms, m);
    if ms != [] {
      MsgAppend(ms[1..], m);
      Regroup(EncodeMsg(ms[0]), EncodeMsgs(ms[1..]), EncodeMsg(m));
      RegroupRecords(Records(ms[0]), Content(ms[1..]), Records(m));
    }
  }

  lemma AppendMsg(ms: seq<Msg>, m: Msg)
    ensures ms == [] ==> ms + [m] == [m] && (ms + [m])[1..] == []
    ensures ms != [] ==> (ms + [m])[0] == ms[0] && (ms + [m])[1..] == ms[1..] + [m]
  {
  }

  lemma RegroupRecords(a: seq<Rec>, b: seq<Rec>, c: seq<Rec>)
    ensures (a + b) + c == a + (b + c)
  {
  }

  /** The receiver's command loop; a character it does not know is skipped. */
  function Receive(rules: Rules, d: Dest, wire: Buf): Outcome
    decreases |wire|
  {
    if wire == [] then Outcome(d, false)
    else if wire[0] == '0' as int then
      var p := ParseRec(wire[1..]);
      if p.None? then Outcome(d, false)
      else
        var e := Put(rules, d, p.value.0);
        if e.None? then Outcome(d, false) else Receive(rules, e.value, p.value.1)
    else if wire[0] == '3' as int then Outcome(d, true)
    else if wire[0] == '5' as int then
      if |wire| < 5 || |wire| < 5 + FromLe(wire[1..5]) then Outcome(d, false)
      else
        var n := FromLe(wire[1..5]);
        var e := PutBatch(rules, d, wire[5..5 + n]);
        if e.None? then Outcome(d, false) else Receive(rules, e.value, wire[5 + n..])
    else Receive(rules, d, wire[1..])
  }

  lemma ReceiveOne(rules: Rules, d: Dest, r: Rec, rest: Buf)
    requires Fitting([r])
    ensures Receive(rules, d, EncodeMsg(One(r)) + rest) ==
            var e := Put(rules, d, r); if e.None? then Outcome(d, false) else Receive(rules, e.value, rest)
  {
    assert r in [r];
    ParseEncoded(r, rest);
    Regroup(['0' as int], EncodeRec(r), rest);
    AfterTag(rules, d, EncodeRec(r) + rest);
  }

  lemma AfterTag(rules: Rules, d: Dest, b: Buf)
    ensures Receive(rules, d, ['0' as int] + b) ==
            var p := ParseRec(b);
            if p.None? then Outcome(d, false)
            else
              var e := Put(rules, d, p.value.0);
              if e.None? then Outcome(d, false) else Receive(rules, e.value, p.value.1)
  {
    assert (['0' as int] + b)[1..] == b;
  }

  lemma ReceiveBatch(rules: Rules, d: Dest, rs: seq<Rec>, rest: Buf)
    requires Fitting(rs) && |EncodeRecs(rs)| < UINT32
    ensures Receive(rules, d, EncodeMsg(Batch(rs)) + rest) ==
            var o := SupplyAll(rules, d, rs); if o.ok then Receive(rules, o.dest, rest) else Outcome(d, false)
  {
    var wire, n := EncodeMsg(Batch(rs)) + rest, |EncodeRecs(rs)|;
    assert Pow256(4) == UINT32;
    LeRoundTrip(n, 4);
    assert wire[1..5] == Le(n, 4);
    assert wire[5..5 + n] == EncodeRecs(rs);
    assert wire[5 + n..] == rest;
    BatchIsItsRecords(rules, d, rs);
  }

  /** The records before a refused one that the destination has when the transfer breaks off. */
  ghost predicate StoppedEarly(rules: Rules, d: Dest, rs: seq<Rec>, o: Outcome)
  {
    !o.ok && exists n: nat | n <= |rs| :: SupplyAll(rules, d, rs[..n]) == Outcome(o.dest, true)
  }

  lemma {:induction false} ReceiveMsgs(rules: Rules, d: Dest, ms: seq<Msg>, rest: Buf)
    requires forall m | m in ms :: Sendable(m)
    ensures var o := SupplyAll(rules, d, Content(ms));
            if o.ok then Receive(rules, d, EncodeMsgs(ms) + rest) == Receive(rules, o.dest, rest)
            else StoppedEarly(rules, d, Content(ms), Receive(rules, d, EncodeMsgs(ms) + rest))
    decreases |ms|
  {
    if ms == [] {
      assert EncodeMsgs(ms) + rest == rest;
    } else {
      var later := EncodeMsgs(ms[1..]) + rest;
      var first, others := Records(ms[0]), Content(ms[1..]);
      assert EncodeMsgs(ms) + rest == EncodeMsg(ms[0]) + later;
      SupplyAppend(rules, d, first, others);
      var o := SupplyAll(rules, d, first);
      FirstMsg(rules, d, ms[0], later);
      if o.ok {
        ReceiveMsgs(rules, o.dest, ms[1..], rest);
        if !SupplyAll(rules, o.dest, others).ok { LongerPrefix(rules, d, first, others, Receive(rules, o.dest, later)); }
      } else {
        assert Content(ms)[..0] == [];
        assert SupplyAll(rules, d, Content(ms)[..0]) == Outcome(d, true);
      }
    }
  }

  lemma FirstMsg(rules: Rules, d: Dest, m: Msg, later: Buf)
    requires Sendable(m)
    ensures var o := SupplyAll(rules, d, Records(m));
            Receive(rules, d, EncodeMsg(m) + later) == if o.ok then Receive(rules, o.dest, later) else Outcome(d, false)
  {
    match m
    case One(r) => ReceiveOne(rules, d, r, later); assert [r][1..] == [];
    case Sync => assert (EncodeMsg(m) + later)[1..] == later;
    case Batch(rs) => ReceiveBatch(rules, d, rs, later);
  }

  lemma LongerPrefix(rules: Rules, d: Dest, first: seq<Rec>, others: seq<Rec>, o: Outcome)
    requires SupplyAll(rules, d, first).ok && StoppedEarly(rules, SupplyAll(rules, d, first).dest, others, o)
    ensures StoppedEarly(rules, d, first + others, o)
  {
    var e := SupplyAll(rules, d, first).dest;
    var n: nat :| n <= |others| && SupplyAll(rules, e, others[..n]) == Outcome(o.dest, true);
    SupplyAppend(rules, d, first, others[..n]);
    assert (first + others)[..|first| + n] == first + others[..n];
  }

  const RANGE_AND_END: Buf := ['2' as int, '3' as int]

  lemma ReceiveEnd(rules: Rules, d: Dest)
    ensures Receive(rules, d, RANGE_AND_END) == Outcome(d, true)
  {
    assert RANGE_AND_END[1..] == ['3' as int];
  }

  /** However the records are packed, the transfer succeeds for the same ones and leaves the same destination. */
  lemma PackingDoesNotMatter(rules: Rules, d: Dest, a: seq<Msg>, b: seq<Msg>)
    requires (forall m | m in a :: Sendable(m)) && (forall m | m in b :: Sendable(m)) && Content(a) == Content(b)
    ensures var x := Receive(rules, d, EncodeMsgs(a) + RANGE_AND_END);
            var y := Receive(rules, d, EncodeMsgs(b) + RANGE_AND_END);
            && x.ok == y.ok == SupplyAll(rules, d, Content(a)).ok
            && (x.ok ==> x == y == SupplyAll(rules, d, Content(a)))
  {
    ReceiveMsgs(rules, d, a, RANGE_AND_END);
    ReceiveMsgs(rules, d, b, RANGE_AND_END);
    ReceiveEnd(rules, SupplyAll(rules, d, Content(a)).dest);
  }

  // ---------------------------------------------------------------- the sender

  class MigrateBatch {
    const maxBytes: nat
    var buffer: Buf
    var addBytes: nat
    var counter: nat
    var sendCounter: nat
    var wire: Buf
    /** The records in the buffer, the messages written so far, and all the records added. */
    ghost var held: seq<Rec>
    ghost var sent: seq<Msg>
    ghost var added: seq<Rec>

    constructor (maxBytes: nat)
      ensures Valid() && this.maxBytes == maxBytes && added == [] && held == []
    {
      this.maxBytes := maxBytes;
      buffer, addBytes, counter, sendCounter, wire := [], 0, 0, 0, [];
      held, sent, added := [], [], [];
    }

    ghost predicate Valid()
      reads this
    {
      && buffer == EncodeRecs(held) && addBytes == |buffer| && counter == |added| && added == Content(sent) + held
      && wire == EncodeMsgs(sent) && (forall m | m in sent :: Sendable(m))
    }

    method Add(r: Rec)
      requires Valid()
      modifies this`buffer, this`addBytes, this`counter, this`held, this`added
      ensures Valid() && added == old(added) + [r] && held == old(held) + [r]
      ensures addBytes == old(addBytes) + 8 + |r.key| + |r.value|
    {
      EncodeAppend(held, r);
      RegroupRecords(Content(sent), held, [r]);
      buffer := buffer + EncodeRec(r);
      addBytes := addBytes + 4 + |r.key| + 4 + |r.value|;
      counter := counter + 1;
      held, added := held + [r], added + [r];
    }

    method Send()
      requires Valid() && Fitting(held) && |buffer| < UINT32
      modifies this`buffer, this`addBytes, this`sendCounter, this`wire, this`held, this`sent
      ensures Valid() && held == [] && Content(sent) == added
    {
      if addBytes > 0 {
        MsgAppend(sent, Batch(held));
        wire := wire + Tagged(buffer);
        sent := sent + [Batch(held)];
        buffer, addBytes, held := [], 0, [];
        sendCounter := sendCounter + 1;
      } else {
        EncodingHasBytes(held);
      }
    }

    method AddAndSend(r: Rec)
      requires Valid() && Fitting(held) && (addBytes == 0 || addBytes < maxBytes)
      requires maxBytes + 8 + |r.key| + |r.value| < UINT32
      modifies this
      ensures Valid() && Fitting(held) && (addBytes == 0 || addBytes < maxBytes) && added == old(added) + [r]
    {
      Add(r);
      if IsFull() {
        Send();
      }
    }

    predicate IsFull()
      reads this
    {
      addBytes >= maxBytes
    }
  }

  lemma NextRecord(rs: seq<Rec>, i: nat)
    requires i < |rs|
    ensures rs[..i + 1] == rs[..i] + [rs[i]]
  {
  }

  /** The records of a range, in batches of about `maxBytes` bytes. */
  method SendRangeByBatch(rs: seq<Rec>, maxBytes: nat) returns (wire: Buf, ghost ms: seq<Msg>, total: nat)
    requires maxBytes < UINT32 && forall i | 0 <= i < |rs| :: maxBytes + 8 + |rs[i].key| + |rs[i].value| < UINT32
    ensures wire == EncodeMsgs(ms) + ['2' as int] && Content(ms) == rs && forall m | m in ms :: Sendable(m)
    ensures total == |rs|
  {
    var batch := new MigrateBatch(maxBytes);
    for i := 0 to |rs|
      invariant batch.Valid() && Fitting(batch.held) && batch.added == rs[..i]
      invariant batch.addBytes == 0 || batch.addBytes < maxBytes
      invariant batch.maxBytes == maxBytes && fresh(batch)
    {
      NextRecord(rs, i);
      batch.AddAndSend(rs[i]);
    }
    batch.Send();
    wire, ms, total := batch.wire + ['2' as int], batch.sent, batch.counter;
  }

  /** The same records one by one, with a mark to wait at after a number of them. */
  method SendRange(rs: seq<Rec>, sendKeyNum: nat) returns (wire: Buf, ghost ms: seq<Msg>)
    requires Fitting(rs)
    ensures wire == EncodeMsgs(ms) + ['2' as int] && Content(ms) == rs && forall m | m in ms :: Sendable(m)
  {
    wire, ms := [], [];
    var num, len := 0, 0;
    for i := 0 to |rs|
      invariant wire == EncodeMsgs(ms) && Content(ms) == rs[..i] && forall m | m in ms :: Sendable(m)
    {
      NextRecord(rs, i);
      wire, ms := SendOne(wire, ms, rs[i]);
      num, len := num + 1, len + 9 + |rs[i].key| + |rs[i].value|;
      if num >= sendKeyNum || len > 10 * 1024 * 1024 {
        MsgAppend(ms, Sync);
        wire, ms := wire + ['1' as int], ms + [Sync];
        num, len := 0, 0;
      }
    }
    assert rs[..|rs|] == rs;
    wire := wire + ['2' as int];
  }

  method SendOne(wire: Buf, ghost ms: seq<Msg>, r: Rec) returns (more: Buf, ghost ns: seq<Msg>)
    requires wire == EncodeMsgs(ms) && Fitting([r]) && forall m | m in ms :: Sendable(m)
    ensures more == EncodeMsgs(ns) && Content(ns) == Content(ms) + [r] && forall m | m in ns :: Sendable(m)
  {
    MsgAppend(ms, One(r));
    more, ns := wire + (['0' as int] + EncodeRec(r)), ms + [One(r)];
  }

  // ---------------------------------------------------------------- the receiver

  class Receiver {
    const rules: Rules
    var dest: Dest

    constructor (rules: Rules, dest: Dest)
      ensures this.rules == rules && this.dest == dest
    {
      this.rules, this.dest := rules, dest;
    }

    method PutSingleBatch(payload: Buf) returns (ok: bool)
      modifies this
      ensures if ok then PutBatch(rules, old(dest), payload) == Some(dest)
              else PutBatch(rules, old(dest), payload) == None && dest == old(dest)
    {
      var txn, rest := dest, payload;
      while rest != []
        invariant PutBatch(rules, txn, rest) == PutBatch(rules, dest, payload)
        decreases |rest|
      {
        var p := ParseRec(rest);
        if p.None? { return false; }
        var e := Put(rules, txn, p.value.0);
        if e.None? { return false; }
        txn, rest := e.value, p.value.1;
      }
      dest := txn;
      return true;
    }

    method ReceiveSnapshot(wire: Buf) returns (ok: bool)
      modifies this
      ensures Receive(rules, old(dest), wire) == Outcome(dest, ok)
    {
      var rest := wire;
      while rest != []
        invariant Receive(rules, dest, rest) == Receive(rules, old(dest), wire)
        decreases |rest|
      {
        var c := rest[0];
        if c == '0' as int {
          var p := ParseRec(rest[1..]);
          if p.None? { return false; }
          var e := Put(rules, dest, p.value.0);
          if e.None? { return false; }
          dest, rest := e.value, p.value.1;
        } else if c == '3' as int {
          return true;
        } else if c == '5' as int {
          if |rest| < 5 || |rest| < 5 + FromLe(rest[1..5]) { return false; }
          var n := FromLe(rest[1..5]);
          ok := PutSingleBatch(rest[5..5 + n]);
          if !ok { return false; }
          rest := rest[5 + n..];
        } else {
          rest := rest[1..];
        }
      }
      return false;
    }
  }
}
