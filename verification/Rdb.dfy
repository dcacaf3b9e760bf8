/** Lengths and strings as a dump stores them. */
module Rdb {
  import opened Names
  import opened Bytes

  const RDB_VERSION := 8
  const RDB_32BITLEN := 0x80
  const RDB_64BITLEN := 0x81

  /** A length takes one byte, two, or a mark followed by four or eight. */
  function SaveLen(len: nat): (b: Buf)
    ensures 1 <= |b| <= 9 && b[0] < 0xc0
  {
    if len < 64 then [len]
    else if len < 16384 then [0x40 + len / 256, len % 256]
    else if len < 0x1_0000_0000 then [RDB_32BITLEN] + Be(len, 4)
    else [RDB_64BITLEN] + Be(len, 8)
  }

  /** What was read: the length, whether it stands for a special encoding, and what follows. */
  datatype Len = Len(value: nat, encoded: bool, rest: Buf)

  function LoadLen(b: Buf): Option<Len>
  {
    if b == [] then None
    else if b[0] >= 0xc0 then Some(Len(b[0] - 0xc0, true, b[1..]))
    else if b[0] < 0x40 then Some(Len(b[0], false, b[1..]))
    else if b[0] < 0x80 then if |b| < 2 then None else Some(Len((b[0] as int - 0x40) * 256 + b[1], false, b[2..]))
    else if b[0] == RDB_32BITLEN then if |b| < 5 then None else Some(Len(FromBe(b[1..5]), false, b[5..]))
    else if b[0] == RDB_64BITLEN then if |b| < 9 then None else Some(Len(FromBe(b[1..9]), false, b[9..]))
    else None
  }

  lemma LenRoundTrip(len: nat, rest: Buf)
    requires len < Pow256(8)
    ensures LoadLen(SaveLen(len) + rest) == Some(Len(len, false, rest))
  {
    var b := SaveLen(len) + rest;
    assert b[|SaveLen(len)|..] == rest;
    if 16384 <= len < 0x1_0000_0000 {
      assert Pow256(4) == 0x1_0000_0000;
      BeRoundTrip(len, 4);
      assert b[1..5] == Be(len, 4);
    } else if len >= 0x1_0000_0000 {
      BeRoundTrip(len, 8);
      assert b[1..9] == Be(len, 8);
    }
  }

  function SaveString(s: Buf): (b: Buf)
    ensures |b| > |s| && b[0] < 0xc0
  {
    SaveLen(|s|) + s
  }

  /** The string and what follows; one of unknown length, or said to be longer than the rest, is read as empty. */
  function LoadString(b: Buf): Option<(Buf, Buf)>
  {
    var l := LoadLen(b);
    if b != [] && RDB_64BITLEN < b[0] < 0xc0 then Some(([], b[1..]))
    else if l.None? || l.value.encoded then None
    else if |l.value.rest| < l.value.value then Some(([], []))
    else Some((l.value.rest[..l.value.value], l.value.rest[l.value.value..]))
  }

  lemma StringRoundTrip(s: Buf, rest: Buf)
    requires |s| < Pow256(8)
    ensures LoadString(SaveString(s) + rest) == Some((s, rest))
  {
    assert SaveString(s) + rest == SaveLen(|s|) + (s + rest);
    LenRoundTrip(|s|, s + rest);
    assert (s + rest)[..|s|] == s && (s + rest)[|s|..] == rest;
  }
}

/**
 The ziplists inside a dumped list. Every entry starts with the length of the one before it, in one byte or
 in five. The writer decides by the length of the whole entry, the reader by the length of the string in it:
 `InStep` says when the two never differ, which is exactly when the reader stays with the writer.
 */
module Ziplists {
  import opened Names
  import opened Bytes
  import opened Rdb

  /** The strings that occur: a dump never holds one of two gigabytes. */
  ghost predicate Short(zl: seq<Buf>)
  {
    forall s | s in zl :: |s| < 0x8000_0000
  }

  function PrevLen(p: nat): Buf
  {
    if p >= 254 then [0xfe] + Le(p, 4) else [p]
  }

  function Entry(p: nat, s: Buf): Buf
  {
    PrevLen(p) + SaveString(s)
  }

  lemma ShortFits(s: Buf)
    requires |s| < 0x8000_0000
    ensures |s| < Pow256(8)
  {
    assert Pow256(4) == 0x1_0000_0000;
    assert Pow256(8) >= Pow256(4);
  }

  function Entries(p: nat, zl: seq<Buf>): Buf
    decreases |zl|
  {
    if zl == [] then []
    else
      var e := Entry(p, zl[0]);
      e + Entries(|e|, zl[1..])
  }

  /** The decimal digits of a number, with a minus sign in front of a negative one. */
  function Decimal(n: int): Buf
    decreases if n < 0 then 1 - 2 * n else 2 * n
  {
    if n < 0 then ['-' as int] + Decimal(-n)
    else if n < 10 then ['0' as int + n]
    else Decimal(n / 10) + ['0' as int + n % 10]
  }

  function Signed(n: nat, width: nat): int
  {
    if 2 * n < Pow256(width) then n else n - Pow256(width)
  }

  /** An integer entry, after its encoding byte; three-byte integers are taken without a sign. */
  function LoadInt(enc: Byte, b: Buf): Option<(Buf, Buf)>
  {
    var width := if enc == 0xfe then 1 else if enc == 0xc0 then 2 else if enc == 0xf0 then 3
                 else if enc == 0xd0 then 4 else if enc == 0xe0 then 8 else 0;
    if 0xf1 <= enc <= 0xfd then Some((Decimal(enc - 0xf1), b))
    else if width == 0 || |b| < width then None
    else
      var n := FromLe(b[..width]);
      Some((Decimal(if width == 3 then n else Signed(n, width)), b[width..]))
  }

  /** A string, or an integer, which is made one. */
  function LoadValue(b: Buf): Option<(Buf, Buf)>
  {
    if b == [] then None else if b[0] < 0xc0 then LoadString(b) else LoadInt(b[0], b[1..])
  }

  /** One entry: the reader passes over the previous length without looking at it. */
  function LoadEntry(b: Buf, prevSize: nat): Option<(Buf, Buf)>
  {
    var skip := if prevSize >= 254 then 5 else 1;
    if |b| <= skip then None else LoadValue(b[skip..])
  }

  function LoadEntries(b: Buf, count: nat, prevSize: nat): Option<(seq<Buf>, Buf)>
    decreases count
  {
    if count == 0 then Some(([], b))
    else
      var e := LoadEntry(b, prevSize);
      if e.None? then None
      else
        var more := LoadEntries(e.value.1, count - 1, |e.value.0|);
        if more.None? then None else Some(([e.value.0] + more.value.0, more.value.1))
  }

  /** Writer and reader agree, at every entry but the last, whether the next previous-length is a long one. */
  predicate InStep(p: nat, zl: seq<Buf>)
    decreases |zl|
  {
    |zl| <= 1 || (
      var n := |Entry(p, zl[0])|;
      (n >= 254 <==> |zl[0]| >= 254) && InStep(n, zl[1..]))
  }

  lemma PassPrevLen(prev: Buf, b: Buf, prevSize: nat)
    requires |prev| == (if prevSize >= 254 then 5 else 1) && b != [] && b[0] < 0xc0
    ensures LoadEntry(prev + b, prevSize) == LoadString(b)
  {
    assert (prev + b)[|prev|..] == b;
  }

  lemma EntryRoundTrip(p: nat, prevSize: nat, s: Buf, rest: Buf)
    requires |s| < Pow256(8) && (p >= 254 <==> prevSize >= 254)
    ensures LoadEntry(Entry(p, s) + rest, prevSize) == Some((s, rest))
  {
    assert Entry(p, s) + rest == PrevLen(p) + (SaveString(s) + rest);
    PassPrevLen(PrevLen(p), SaveString(s) + rest, prevSize);
    StringRoundTrip(s, rest);
  }

  lemma FirstThenRest(b: Buf, later: Buf, rest: Buf, prevSize: nat, s: Buf, zl: seq<Buf>)
    requires LoadEntry(b, prevSize) == Some((s, later)) && LoadEntries(later, |zl|, |s|) == Some((zl, rest))
    ensures LoadEntries(b, |zl| + 1, prevSize) == Some(([s] + zl, rest))
  {
  }

  lemma EntriesSplit(p: nat, zl: seq<Buf>, rest: Buf)
    requires zl != []
    ensures var e := Entry(p, zl[0]); Entries(p, zl) + rest == e + (Entries(|e|, zl[1..]) + rest)
  {
    var e := Entry(p, zl[0]);
    Regroup(e, Entries(|e|, zl[1..]), rest);
  }

  lemma HeadAndTail(zl: seq<Buf>)
    requires zl != []
    ensures [zl[0]] + zl[1..] == zl
  {
  }

  lemma {:induction false} EntriesRoundTrip(p: nat, prevSize: nat, zl: seq<Buf>, rest: Buf)
    requires Short(zl) && InStep(p, zl) && (p >= 254 <==> prevSize >= 254)
    ensures LoadEntries(Entries(p, zl) + rest, |zl|, prevSize) == Some((zl, rest))
    decreases |zl|
  {
    if zl == [] {
      assert Entries(p, zl) + rest == rest;
    } else {
      EntriesSplit(p, zl, rest);
      ShortFits(zl[0]);
      var e := Entry(p, zl[0]);
      var later := Entries(|e|, zl[1..]) + rest;
      EntryRoundTrip(p, prevSize, zl[0], later);
      if |zl| > 1 {
        EntriesRoundTrip(|e|, |zl[0]|, zl[1..], rest);
      } else {
        assert later == [] + rest == rest;
      }
      FirstThenRest(e + later, later, rest, prevSize, zl[0], zl[1..]);
      HeadAndTail(zl);
    }
  }

  /** The string's length is under 254 and that of its entry is not; the entry is longer behind a long string. */
  predicate Middling(before: nat, len: nat)
  {
    251 <= len <= 253 || (247 <= len <= 250 && before >= 254)
  }

  /** No string but the last has such a length; `before` is that of the string in front of them all. */
  predicate Steady(before: nat, zl: seq<Buf>)
  {
    forall i | 0 <= i < |zl| - 1 :: !Middling(LenBefore(before, zl, i), |zl[i]|)
  }

  function LenBefore(before: nat, zl: seq<Buf>, i: nat): nat
    requires i < |zl|
  {
    if i == 0 then before else |zl[i - 1]|
  }

  /** Whether reader and writer stay together can be seen from the lengths of the strings. */
  lemma {:induction false} InStepExactlyIfSteady(p: nat, before: nat, zl: seq<Buf>)
    requires p >= 254 <==> before >= 254
    ensures InStep(p, zl) <==> Steady(before, zl)
    decreases |zl|
  {
    if |zl| > 1 {
      var n, rest := |Entry(p, zl[0])|, zl[1..];
      EntryIsLong(p, before, zl[0]);
      SteadyStep(before, zl);
      if n >= 254 <==> |zl[0]| >= 254 { InStepExactlyIfSteady(n, |zl[0]|, rest); }
    }
  }

  lemma EntryIsLong(p: nat, before: nat, s: Buf)
    requires p >= 254 <==> before >= 254
    ensures (|Entry(p, s)| >= 254 <==> |s| >= 254) <==> !Middling(before, |s|)
  {
  }

  lemma SteadyStep(before: nat, zl: seq<Buf>)
    requires |zl| > 1
    ensures Steady(before, zl) <==> !Middling(before, |zl[0]|) && Steady(|zl[0]|, zl[1..])
  {
    var rest := zl[1..];
    assert !Middling(before, |zl[0]|) <==> !Middling(LenBefore(before, zl, 0), |zl[0]|);
    assert forall i: nat | i < |rest| :: LenBefore(|zl[0]|, rest, i) == LenBefore(before, zl, i + 1) && rest[i] == zl[i + 1];
    if !Middling(before, |zl[0]|) && Steady(|zl[0]|, rest) {
      forall i | 0 <= i < |zl| - 1 ensures !Middling(LenBefore(before, zl, i), |zl[i]|) {
        if i > 0 { assert !Middling(LenBefore(|zl[0]|, rest, i - 1), |rest[i - 1]|); }
      }
    }
  }

  lemma EntrySize(p: nat, s: Buf)
    ensures |s| < |Entry(p, s)|
    ensures |s| < 254 ==> |Entry(p, s)| <= |s| + 7
  {
  }
}
