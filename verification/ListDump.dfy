/**
 DUMP and RESTORE of a list: the elements go into ziplists of limited size, behind a count that is known only
 at the end, so that room for it is left and closed afterwards. A payload that passes the check restores the
 list exactly if every ziplist is in step.
 */
module ListDump {
  import opened Names
  import opened Bytes
  import opened Rdb
  import opened Ziplists
  import opened ZiplistDrift

  const QUICKLIST := 14
  const ZLBYTE_LIMIT := 8192
  const ZLLEN_LIMIT := 256

  // ---------------------------------------------------------------- one ziplist

  function LastLen(p: nat, zl: seq<Buf>): nat
    decreases |zl|
  {
    if zl == [] then p else LastLen(|Entry(p, zl[0])|, zl[1..])
  }

  lemma {:induction false} LastLenFits(p: nat, zl: seq<Buf>)
    ensures LastLen(p, zl) <= p + |Entries(p, zl)|
    ensures zl != [] ==> LastLen(p, zl) <= |Entries(p, zl)|
    decreases |zl|
  {
    if zl != [] {
      LastLenFits(|Entry(p, zl[0])|, zl[1..]);
    }
  }

  /** Total size, offset of the last entry, number of entries, the entries, an end mark. */
  function Ziplist(zl: seq<Buf>): Buf
  {
    Assemble(|Entries(0, zl)| + 11, TailOffset(|Entries(0, zl)|, LastLen(0, zl)), |zl|, Entries(0, zl))
  }

  /** Behind ten bytes of header and all entries but the last. */
  function TailOffset(all: nat, last: nat): nat
  {
    if last <= all then 10 + all - last else 10
  }

  function Assemble(zlbytes: nat, zltail: nat, zllen: nat, entries: Buf): Buf
  {
    Le(zlbytes, 4) + Le(zltail, 4) + Le(zllen, 2) + entries + [0xff]
  }

  function LoadZiplist(b: Buf): Option<seq<Buf>>
  {
    if |b| < 10 then None
    else
      var r := LoadEntries(b[10..], FromLe(b[8..10]), 0);
      if r.None? || r.value.1 == [] || r.value.1[0] != 0xff then None else Some(r.value.0)
  }

  lemma ZiplistParts(zl: seq<Buf>)
    requires |zl| < 65536
    ensures |Ziplist(zl)| == |Entries(0, zl)| + 11
    ensures FromLe(Ziplist(zl)[8..10]) == |zl| && Ziplist(zl)[10..] == Entries(0, zl) + [0xff]
  {
    AssembleParts(|Entries(0, zl)| + 11, TailOffset(|Entries(0, zl)|, LastLen(0, zl)), |zl|, Entries(0, zl));
  }

  lemma AssembleParts(zlbytes: nat, zltail: nat, zllen: nat, entries: Buf)
    requires zllen < 65536
    ensures var b := Assemble(zlbytes, zltail, zllen, entries);
            |b| == |entries| + 11 && FromLe(b[8..10]) == zllen && b[10..] == entries + [0xff]
  {
    TwoBytes(zllen);
    Parts(Le(zlbytes, 4), Le(zltail, 4), Le(zllen, 2), entries, [0xff]);
  }

  lemma TwoBytes(n: nat)
    requires n < 65536
    ensures FromLe(Le(n, 2)) == n
  {
    assert Pow256(2) == 65536;
    LeRoundTrip(n, 2);
  }

  lemma Parts(a: Buf, b: Buf, c: Buf, d: Buf, e: Buf)
    requires |a| == |b| == 4 && |c| == 2
    ensures var all := a + b + c + d + e;
            |all| == |d| + |e| + 10 && all[8..10] == c && all[10..] == d + e
  {
  }

  /** A ziplist is read back exactly if it is in step. */
  lemma ZiplistExactlyIfInStep(zl: seq<Buf>)
    requires Short(zl) && |zl| < 65536
    ensures LoadZiplist(Ziplist(zl)) == Some(zl) <==> InStep(0, zl)
    ensures LoadZiplist(Ziplist(zl)).Some? ==> |LoadZiplist(Ziplist(zl)).value| == |zl|
  {
    ZiplistParts(zl);
    BackExactlyIfInStep(0, 0, zl);
    CountIsKept(Entries(0, zl) + [0xff], |zl|, 0);
  }

  lemma {:induction false} CountIsKept(b: Buf, count: nat, prevSize: nat)
    ensures var r := LoadEntries(b, count, prevSize); r.Some? ==> |r.value.0| == count
    decreases count
  {
    if count > 0 {
      var e := LoadEntry(b, prevSize);
      if e.Some? { CountIsKept(e.value.1, count - 1, |e.value.0|); }
    }
  }

  lemma SameSuffix(a: Buf, b: Buf, last: Buf)
    requires EndsIn(b, last)
    ensures EndsIn(a + b, last)
  {
  }

  /** The header's second number is where the last entry starts. */
  lemma {:induction false} TailIsLastEntry(p: nat, zl: seq<Buf>) returns (last: Buf)
    requires zl != []
    ensures IsEntry(last, zl[|zl| - 1]) && |last| == LastLen(p, zl) && EndsIn(Entries(p, zl), last)
    decreases |zl|
  {
    var e := Entry(p, zl[0]);
    if |zl| == 1 {
      last := e;
      WholeEnd(e);
      assert Entries(p, zl) == e + [];
    } else {
      last := TailIsLastEntry(|e|, zl[1..]);
      LastOfTail(zl);
      SameSuffix(e, Entries(|e|, zl[1..]), last);
    }
  }

  ghost predicate EndsIn(b: Buf, last: Buf)
  {
    |last| <= |b| && b[|b| - |last|..] == last
  }

  lemma WholeEnd(e: Buf)
    ensures EndsIn(e + [], e)
  {
    assert e + [] == e;
  }

  lemma LastOfTail(zl: seq<Buf>)
    requires |zl| > 1
    ensures zl[1..][|zl[1..]| - 1] == zl[|zl| - 1]
  {
  }

  ghost predicate IsEntry(b: Buf, s: Buf)
  {
    exists q: nat :: b == Entry(q, s)
  }

  lemma NextEntry(p: nat, zl: seq<Buf>, i: nat)
    requires i < |zl|
    ensures var e := Entry(p, zl[i]);
            && Entries(p, zl[i..]) == e + Entries(|e|, zl[i + 1..])
            && LastLen(p, zl[i..]) == LastLen(|e|, zl[i + 1..])
  {
    assert zl[i..][0] == zl[i] && zl[i..][1..] == zl[i + 1..];
  }

  /** `body` has the entries before place `i`, the last of them `prevlen` bytes long. */
  ghost predicate Building(zl: seq<Buf>, i: nat, body: Buf, prevlen: nat)
    requires i <= |zl|
  {
    && body + Entries(prevlen, zl[i..]) == Entries(0, zl) && LastLen(prevlen, zl[i..]) == LastLen(0, zl)
  }

  lemma BuildStep(zl: seq<Buf>, i: nat, body: Buf, prevlen: nat)
    requires i < |zl| && Building(zl, i, body, prevlen)
    ensures Building(zl, i + 1, body + Entry(prevlen, zl[i]), |Entry(prevlen, zl[i])|)
  {
    NextEntry(prevlen, zl, i);
    var entry := Entry(prevlen, zl[i]);
    Regroup(body, entry, Entries(|entry|, zl[i + 1..]));
  }

  lemma BuildEnds(zl: seq<Buf>, body: Buf, prevlen: nat)
    requires Building(zl, |zl|, body, prevlen)
    ensures body == Entries(0, zl) && prevlen == LastLen(0, zl) <= |body|
  {
    assert zl[|zl|..] == [] && body + [] == body;
    LastLenFits(0, zl);
  }

  /** The loop that builds a ziplist; its header is written last, over the room left for it. */
  method FormatZiplist(zl: seq<Buf>) returns (b: Buf)
    ensures b == Ziplist(zl)
  {
    var body: Buf := [];
    var zlbytes, prevlen: nat := 10, 0;
    assert zl[0..] == zl;
    for i := 0 to |zl|
      invariant zlbytes == 10 + |body| && Building(zl, i, body, prevlen)
    {
      BuildStep(zl, i, body, prevlen);
      var entry := Entry(prevlen, zl[i]);
      body := body + entry;
      prevlen := |entry|;
      zlbytes := zlbytes + |entry|;
    }
    BuildEnds(zl, body, prevlen);
    zlbytes := zlbytes + 1;
    var zltail := zlbytes - 1 - prevlen;
    b := Assemble(zlbytes, zltail, |zl|, body);
  }

  // ---------------------------------------------------------------- the ziplists of a list

  /** A ziplist is closed when it holds too many bytes or too many elements, and at the end of the list. */
  function Chunks(list: seq<Buf>, held: seq<Buf>, bytes: nat): seq<seq<Buf>>
    decreases |list|
  {
    if list == [] then []
    else
      var more, size := held + [list[0]], bytes + |list[0]|;
      if size > ZLBYTE_LIMIT || |more| > ZLLEN_LIMIT || |list| == 1 then [more] + Chunks(list[1..], [], 0)
      else Chunks(list[1..], more, size)
  }

  function Flatten(zls: seq<seq<Buf>>): seq<Buf>
  {
    if zls == [] then [] else zls[0] + Flatten(zls[1..])
  }

  ghost predicate WellCut(zls: seq<seq<Buf>>)
  {
    forall zl | zl in zls :: 0 < |zl| <= ZLLEN_LIMIT + 1 && Short(zl)
  }

  lemma {:induction false} ChunksHoldTheList(list: seq<Buf>, held: seq<Buf>, bytes: nat)
    requires Short(list) && Short(held) && |held| <= ZLLEN_LIMIT && (list == [] ==> held == [])
    ensures Flatten(Chunks(list, held, bytes)) == held + list && WellCut(Chunks(list, held, bytes))
    decreases |list|
  {
    if list != [] {
      var more, size := held + [list[0]], bytes + |list[0]|;
      assert held + list == more + list[1..];
      if size > ZLBYTE_LIMIT || |more| > ZLLEN_LIMIT || |list| == 1 {
        ChunksHoldTheList(list[1..], [], 0);
        assert [] + list[1..] == list[1..];
        var rest := Chunks(list[1..], [], 0);
        assert ([more] + rest)[1..] == rest;
      } else {
        ChunksHoldTheList(list[1..], more, size);
      }
    }
  }

  lemma {:induction false} EntriesSize(p: nat, zl: seq<Buf>)
    requires Short(zl)
    ensures |Entries(p, zl)| <= |zl| * 0x8000_000e
    decreases |zl|
  {
    if zl != [] {
      EntriesSize(|Entry(p, zl[0])|, zl[1..]);
    }
  }

  lemma ZiplistFits(zl: seq<Buf>)
    requires Short(zl) && |zl| <= ZLLEN_LIMIT + 1
    ensures |Ziplist(zl)| < Pow256(8)
  {
    ZiplistParts(zl);
    EntriesSize(0, zl);
    assert Pow256(4) == 0x1_0000_0000;
    assert Pow256(8) == 0x1_0000_0000 * 0x1_0000_0000;
  }

  function SaveLists(zls: seq<seq<Buf>>): Buf
  {
    if zls == [] then [] else SaveString(Ziplist(zls[0])) + SaveLists(zls[1..])
  }

  function LoadLists(b: Buf, count: nat): Option<seq<Buf>>
    decreases count
  {
    if count == 0 then Some([])
    else
      var s := LoadString(b);
      if s.None? then None
      else
        var zl := LoadZiplist(s.value.0);
        if zl.None? then None
        else
          var more := LoadLists(s.value.1, count - 1);
          if more.None? then None else Some(zl.value + more.value)
  }

  /** Every ziplist of the dump is in step. */
  ghost predicate AllInStep(zls: seq<seq<Buf>>)
  {
    forall zl | zl in zls :: InStep(0, zl)
  }

  lemma FirstList(zls: seq<seq<Buf>>, rest: Buf)
    requires zls != [] && Short(zls[0]) && |zls[0]| <= ZLLEN_LIMIT + 1
    ensures var z := LoadZiplist(Ziplist(zls[0]));
            var more := LoadLists(SaveLists(zls[1..]) + rest, |zls| - 1);
            LoadLists(SaveLists(zls) + rest, |zls|)
            == if z.None? || more.None? then None else Some(z.value + more.value)
  {
    var blob := Ziplist(zls[0]);
    ZiplistFits(zls[0]);
    Regroup(SaveString(blob), SaveLists(zls[1..]), rest);
    StringRoundTrip(blob, SaveLists(zls[1..]) + rest);
  }

  lemma {:induction false} ListsRoundTrip(zls: seq<seq<Buf>>, rest: Buf)
    requires WellCut(zls) && AllInStep(zls)
    ensures LoadLists(SaveLists(zls) + rest, |zls|) == Some(Flatten(zls))
    decreases |zls|
  {
    if zls != [] {
      FirstList(zls, rest);
      ZiplistExactlyIfInStep(zls[0]);
      ListsRoundTrip(zls[1..], rest);
    }
  }

  ghost predicate LoadsWrong(b: Buf, zls: seq<seq<Buf>>)
  {
    LoadLists(b, |zls|) != Some(Flatten(zls))
  }

  lemma WrongPartIsWrong(zls: seq<seq<Buf>>, rest: Buf)
    requires zls != [] && Short(zls[0]) && |zls[0]| <= ZLLEN_LIMIT + 1
    requires LoadZiplist(Ziplist(zls[0])) != Some(zls[0]) || LoadsWrong(SaveLists(zls[1..]) + rest, zls[1..])
    ensures LoadsWrong(SaveLists(zls) + rest, zls)
  {
    FirstList(zls, rest);
    ZiplistExactlyIfInStep(zls[0]);
    OnePartDiffers(LoadZiplist(Ziplist(zls[0])), LoadLists(SaveLists(zls[1..]) + rest, |zls[1..]|),
                   zls[0], Flatten(zls[1..]));
  }

  lemma {:induction false} ListsOutOfStep(zls: seq<seq<Buf>>, k: nat, rest: Buf)
    requires WellCut(zls) && k < |zls| && !InStep(0, zls[k])
    ensures LoadsWrong(SaveLists(zls) + rest, zls)
    decreases |zls|
  {
    if k == 0 {
      ZiplistExactlyIfInStep(zls[0]);
    } else {
      ListsOutOfStep(zls[1..], k - 1, rest);
    }
    WrongPartIsWrong(zls, rest);
  }

  lemma OnePartDiffers(z: Option<seq<Buf>>, more: Option<seq<Buf>>, a: seq<Buf>, b: seq<Buf>)
    requires (z.Some? ==> |z.value| == |a|) && (z != Some(a) || more != Some(b))
    ensures (if z.None? || more.None? then None else Some(z.value + more.value)) != Some(a + b)
  {
    if z.Some? && more.Some? { SameParts(z.value, more.value, a, b); }
  }

  lemma SameParts(a: seq<Buf>, b: seq<Buf>, c: seq<Buf>, d: seq<Buf>)
    requires |a| == |c|
    ensures a + b == c + d <==> a == c && b == d
  {
    if a + b == c + d {
      assert a == (a + b)[..|a|] == c;
      assert b == (a + b)[|a|..] == d;
    }
  }

  // ---------------------------------------------------------------- the whole dump

  ghost predicate Dumpable(list: seq<Buf>)
  {
    list != [] && Short(list) && |list| < Pow256(8)
  }

  lemma {:induction false} FewChunks(list: seq<Buf>, held: seq<Buf>, bytes: nat)
    ensures |Chunks(list, held, bytes)| <= |list|
    decreases |list|
  {
    if list != [] {
      FewChunks(list[1..], [], 0);
      FewChunks(list[1..], held + [list[0]], bytes + |list[0]|);
    }
  }

  lemma CutsWell(list: seq<Buf>)
    requires Dumpable(list)
    ensures WellCut(Chunks(list, [], 0)) && Flatten(Chunks(list, [], 0)) == list && |Chunks(list, [], 0)| < Pow256(8)
  {
    ChunksHoldTheList(list, [], 0);
    FewChunks(list, [], 0);
    assert [] + list == list;
  }

  /** Type, number of ziplists, and the ziplists. */
  function ObjectBytes(list: seq<Buf>): Buf
  {
    [QUICKLIST] + SaveLen(|Chunks(list, [], 0)|) + SaveLists(Chunks(list, [], 0))
  }

  /** The version and a checksum of all that comes before it. */
  function WithFooter(b: Buf, crc: Buf -> nat): Buf
  {
    b + Footer(b, crc)
  }

  function Footer(b: Buf, crc: Buf -> nat): Buf
  {
    [RDB_VERSION, 0] + Le(crc(b + [RDB_VERSION, 0]), 8)
  }

  predicate VerifyDumpPayload(payload: Buf, crc: Buf -> nat)
  {
    var len := |payload|;
    && len >= 10
    && payload[len - 9] as int * 256 + payload[len - 10] <= RDB_VERSION
    && payload[len - 8..] == Le(crc(payload[..len - 8]), 8)
  }

  function RestoreList(payload: Buf, crc: Buf -> nat): Option<seq<Buf>>
  {
    if !VerifyDumpPayload(payload, crc) || payload[0] != QUICKLIST then None
    else
      var l := LoadLen(payload[1..]);
      if l.None? then None else LoadLists(l.value.rest, l.value.value)
  }

  lemma FooterVerifies(b: Buf, crc: Buf -> nat)
    ensures VerifyDumpPayload(WithFooter(b, crc), crc)
  {
    var payload, c := WithFooter(b, crc), b + [RDB_VERSION, 0];
    assert payload[..|payload| - 8] == c;
    assert payload[|payload| - 8..] == Le(crc(c), 8);
  }

  lemma RestoreReads(n: nat, lists: Buf, b: Buf, crc: Buf -> nat)
    requires n < Pow256(8) && b == [QUICKLIST] + SaveLen(n) + lists
    ensures RestoreList(WithFooter(b, crc), crc) == LoadLists(lists + Footer(b, crc), n)
  {
    FooterVerifies(b, crc);
    CountAndLists(SaveLen(n), lists, b, Footer(b, crc));
    LenRoundTrip(n, lists + Footer(b, crc));
  }

  lemma CountAndLists(len: Buf, lists: Buf, b: Buf, footer: Buf)
    requires b == [QUICKLIST] + len + lists
    ensures (b + footer)[0] == QUICKLIST && (b + footer)[1..] == len + (lists + footer)
  {
  }

  /** Dumping and restoring gives the list back exactly if every ziplist is in step. */
  lemma RestoresExactlyIfInStep(list: seq<Buf>, crc: Buf -> nat)
    requires Dumpable(list)
    ensures VerifyDumpPayload(WithFooter(ObjectBytes(list), crc), crc)
    ensures RestoreList(WithFooter(ObjectBytes(list), crc), crc) == Some(list) <==> AllInStep(Chunks(list, [], 0))
  {
    var zls, b := Chunks(list, [], 0), ObjectBytes(list);
    CutsWell(list);
    FooterVerifies(b, crc);
    RestoreReads(|zls|, SaveLists(zls), b, crc);
    if AllInStep(zls) {
      ListsRoundTrip(zls, Footer(b, crc));
    } else {
      var k :| 0 <= k < |zls| && !InStep(0, zls[k]);
      assert zls[k] in zls;
      ListsOutOfStep(zls, k, Footer(b, crc));
    }
  }

  ghost predicate AllSteady(zls: seq<seq<Buf>>)
  {
    forall zl | zl in zls :: Steady(0, zl)
  }

  /**
   The same, as the lengths of the elements show it: no element but the last of its ziplist has 251 to 253
   bytes, and none has 247 to 250 right behind one of 254 or more in the same ziplist.
   */
  lemma RestoresExactlyIfSteady(list: seq<Buf>, crc: Buf -> nat)
    requires Dumpable(list)
    ensures RestoreList(WithFooter(ObjectBytes(list), crc), crc) == Some(list) <==> AllSteady(Chunks(list, [], 0))
  {
    RestoresExactlyIfInStep(list, crc);
    forall zl | zl in Chunks(list, [], 0) ensures InStep(0, zl) <==> Steady(0, zl) {
      InStepExactlyIfSteady(0, 0, zl);
    }
  }

  /** A list with elements of 247 to 253 bytes only at the ends of its ziplists survives. */
  lemma NoMiddlingRestores(list: seq<Buf>, crc: Buf -> nat)
    requires Dumpable(list)
    requires forall zl, i | zl in Chunks(list, [], 0) && 0 <= i < |zl| - 1 :: !(247 <= |zl[i]| <= 253)
    ensures RestoreList(WithFooter(ObjectBytes(list), crc), crc) == Some(list)
  {
    RestoresExactlyIfSteady(list, crc);
  }

  lemma OneIsNotSteady(zls: seq<seq<Buf>>, zl: seq<Buf>, i: nat)
    requires zl in zls && i < |zl| - 1 && 251 <= |zl[i]| <= 253
    ensures !AllSteady(zls)
  {
    assert Middling(LenBefore(0, zl, i), |zl[i]|);
  }

  /** An element of 251 to 253 bytes with another one behind it in its ziplist breaks it. */
  lemma MiddlingElementBreaks(list: seq<Buf>, zl: seq<Buf>, i: nat, crc: Buf -> nat)
    requires Dumpable(list) && zl in Chunks(list, [], 0) && i < |zl| - 1 && 251 <= |zl[i]| <= 253
    ensures RestoreList(WithFooter(ObjectBytes(list), crc), crc) != Some(list)
  {
    RestoresExactlyIfSteady(list, crc);
    OneIsNotSteady(Chunks(list, [], 0), zl, i);
  }

  // ---------------------------------------------------------------- the code

  /** Moves the first `hi` bytes so that they end at `end`, from the back, because the two places overlap. */
  method CopyBackward(a: array<Byte>, hi: nat, end: nat)
    requires hi <= end <= a.Length
    modifies a
    ensures forall j | 0 <= j < hi :: a[end - hi + j] == old(a[j])
    ensures forall j | end <= j < a.Length :: a[j] == old(a[j])
  {
    for k := 0 to hi
      invariant forall j | hi - k <= j < hi :: a[end - hi + j] == old(a[j])
      invariant forall j | 0 <= j < hi - k :: a[j] == old(a[j])
      invariant forall j | end <= j < a.Length :: a[j] == old(a[j])
    {
      a[end - 1 - k] := a[hi - 1 - k];
    }
  }

  lemma AppendOne(zls: seq<seq<Buf>>, zl: seq<Buf>)
    ensures zls == [] ==> zls + [zl] == [zl] && (zls + [zl])[1..] == []
    ensures zls != [] ==> (zls + [zl])[0] == zls[0] && (zls + [zl])[1..] == zls[1..] + [zl]
  {
  }

  lemma {:induction false} SaveListsAppend(zls: seq<seq<Buf>>, zl: seq<Buf>)
    ensures SaveLists(zls + [zl]) == SaveLists(zls) + SaveString(Ziplist(zl))
    decreases |zls|
  {
    AppendOne(zls, zl);
    if zls != [] {
      SaveListsAppend(zls[1..], zl);
      Regroup(SaveString(Ziplist(zls[0])), SaveLists(zls[1..]), SaveString(Ziplist(zl)));
    }
  }

  /** The ziplists that are closed so far, and what the open one and the elements to come will add. */
  ghost predicate Cutting(list: seq<Buf>, i: nat, closed: seq<seq<Buf>>, zl: seq<Buf>, byteSz: nat)
    requires i <= |list|
  {
    && closed + Chunks(list[i..], zl, byteSz) == Chunks(list, [], 0)
    && (i == |list| ==> zl == [])
  }

  lemma CutStep(list: seq<Buf>, i: nat, closed: seq<seq<Buf>>, zl: seq<Buf>, byteSz: nat)
    requires i < |list| && Cutting(list, i, closed, zl, byteSz)
    ensures var more, size := zl + [list[i]], byteSz + |list[i]|;
            if size > ZLBYTE_LIMIT || |more| > ZLLEN_LIMIT || i == |list| - 1
            then Cutting(list, i + 1, closed + [more], [], 0)
            else Cutting(list, i + 1, closed, more, size)
  {
    var more, size := zl + [list[i]], byteSz + |list[i]|;
    assert list[i..][0] == list[i] && list[i..][1..] == list[i + 1..];
    if size > ZLBYTE_LIMIT || |more| > ZLLEN_LIMIT || i == |list| - 1 {
      var rest := Chunks(list[i + 1..], [], 0);
      assert closed + ([more] + rest) == (closed + [more]) + rest;
    }
  }

  /** The loop over the elements, with its running ziplist. */
  method SaveZiplists(list: seq<Buf>) returns (lists: Buf, zlCnt: nat)
    ensures lists == SaveLists(Chunks(list, [], 0)) && zlCnt == |Chunks(list, [], 0)|
  {
    lists, zlCnt := [], 0;
    var zl: seq<Buf> := [];
    var byteSz: nat := 0;
    ghost var closed: seq<seq<Buf>> := [];
    assert list[0..] == list;
    for i := 0 to |list|
      invariant Cutting(list, i, closed, zl, byteSz) && lists == SaveLists(closed) && zlCnt == |closed|
    {
      CutStep(list, i, closed, zl, byteSz);
      byteSz := byteSz + |list[i]|;
      zl := zl + [list[i]];
      if byteSz > ZLBYTE_LIMIT || |zl| > ZLLEN_LIMIT || i == |list| - 1 {
        zlCnt := zlCnt + 1;
        SaveListsAppend(closed, zl);
        var b := FormatZiplist(zl);
        lists := lists + SaveString(b);
        closed := closed + [zl];
        zl, byteSz := [], 0;
      }
    }
    assert list[|list|..] == [] && closed + [] == closed;
  }

  const ROOM: Buf := [0, 0, 0, 0, 0, 0, 0, 0, 0]

  lemma OverRoom(len: Buf, lists: Buf)
    requires |len| <= 9
    ensures var p := [QUICKLIST] + ROOM + lists;
            var q := p[..1] + len + p[1 + |len|..];
            |q| == 10 + |lists| && q[..1 + |len|] == [QUICKLIST] + len && q[10..] == lists
  {
  }

  lemma Closed(a: Buf, begin: nat, end: nat, front: Buf, back: Buf)
    requires begin <= end <= |a| && a[begin..end] == front && a[end..] == back
    ensures a[begin..] == front + back
  {
    assert a[begin..] == a[begin..end] + a[end..];
  }

  /** Leaves room for the longest count, and closes it up when the count is known. */
  method DumpObject(list: seq<Buf>) returns (payload: Buf, begin: nat)
    ensures begin <= |payload| && payload[begin..] == ObjectBytes(list)
  {
    payload := [QUICKLIST];
    var notAligned := 1;
    var qlEnd := notAligned + 9;
    payload := payload + ROOM;
    var lists, zlCnt := SaveZiplists(list);
    payload := payload + lists;
    var len := SaveLen(zlCnt);
    OverRoom(len, lists);
    payload := payload[..notAligned] + len + payload[notAligned + |len|..];
    notAligned := notAligned + |len|;
    payload := CloseUp(payload, notAligned, qlEnd);
    begin := 9 - |len|;
    Closed(payload, begin, qlEnd, [QUICKLIST] + len, lists);
  }

  /** The shift works on the buffer itself; a count of nine bytes needs none. */
  method CloseUp(b: Buf, hi: nat, end: nat) returns (r: Buf)
    requires hi <= end <= |b|
    ensures |r| == |b| && r[end - hi..end] == b[..hi] && r[end..] == b[end..]
  {
    var a := new Byte[|b|](j requires 0 <= j < |b| => b[j]);
    assert a[..] == b;
    if hi < end { CopyBackward(a, hi, end); }
    r := a[..];
    forall j | 0 <= j < hi ensures r[end - hi + j] == b[j] {
      assert r[end - hi + j] == a[end - hi + j];
    }
    MovedBytes(b, r, hi, end);
  }

  lemma MovedBytes(b: Buf, r: Buf, hi: nat, end: nat)
    requires hi <= end <= |b| == |r|
    requires forall j | 0 <= j < hi :: r[end - hi + j] == b[j]
    requires forall j | end <= j < |b| :: r[j] == b[j]
    ensures r[end - hi..end] == b[..hi] && r[end..] == b[end..]
  {
  }

  /** An empty list is not dumped. */
  method Dump(list: seq<Buf>, crc: Buf -> nat) returns (output: Option<Buf>)
    ensures output == if list == [] then None else Some(WithFooter(ObjectBytes(list), crc))
  {
    if list == [] { return None; }
    var payload, begin := DumpObject(list);
    ghost var bytes := payload[begin..];
    SliceAndAppend(payload, begin, [RDB_VERSION, 0]);
    payload := payload + [RDB_VERSION % 256, RDB_VERSION / 256];
    var sum := crc(payload[begin..]);
    SliceAndAppend(payload, begin, Le(sum, 8));
    payload := payload + Le(sum, 8);
    Regroup(bytes, [RDB_VERSION, 0], Le(sum, 8));
    return Some(payload[begin..]);
  }

  lemma SliceAndAppend(a: Buf, begin: nat, b: Buf)
    requires begin <= |a|
    ensures (a + b)[begin..] == a[begin..] + b
  {
  }

  function After(zl: seq<Buf>, r: Option<(seq<Buf>, Buf)>): Option<(seq<Buf>, Buf)>
  {
    if r.None? then None else Some((zl + r.value.0, r.value.1))
  }

  /** The same, with the strings read so far. */
  function LoadOnto(zl: seq<Buf>, b: Buf, count: nat, prevSize: nat): Option<(seq<Buf>, Buf)>
    decreases count
  {
    if count == 0 then Some((zl, b))
    else
      var e := LoadEntry(b, prevSize);
      if e.None? then None else LoadOnto(zl + [e.value.0], e.value.1, count - 1, |e.value.0|)
  }

  lemma {:induction false} OntoIsAfter(zl: seq<Buf>, b: Buf, count: nat, prevSize: nat)
    ensures LoadOnto(zl, b, count, prevSize) == After(zl, LoadEntries(b, count, prevSize))
    decreases count
  {
    if count == 0 {
      assert zl + [] == zl;
    } else {
      var e := LoadEntry(b, prevSize);
      if e.Some? {
        OntoIsAfter(zl + [e.value.0], e.value.1, count - 1, |e.value.0|);
        AfterOneMore(zl, e.value.0, LoadEntries(e.value.1, count - 1, |e.value.0|));
      }
    }
  }

  lemma AfterOneMore(zl: seq<Buf>, s: Buf, r: Option<(seq<Buf>, Buf)>)
    ensures After(zl + [s], r) == if r.None? then None else Some((zl + ([s] + r.value.0), r.value.1))
    ensures After([], r) == r
  {
    if r.Some? {
      assert zl + [s] + r.value.0 == zl + ([s] + r.value.0);
      assert [] + r.value.0 == r.value.0;
    }
  }

  /** The loop over the entries of a ziplist. */
  method ReadEntries(b: Buf, count: nat) returns (r: Option<(seq<Buf>, Buf)>)
    ensures r == LoadEntries(b, count, 0)
  {
    var zl: seq<Buf> := [];
    var rest, prevlen: nat, left := b, 0, count;
    OntoIsAfter([], b, count, 0);
    AfterOneMore([], [], LoadEntries(b, count, 0));
    while left > 0
      invariant LoadOnto([], b, count, 0) == LoadOnto(zl, rest, left, prevlen)
    {
      var e := LoadEntry(rest, prevlen);
      if e.None? { return None; }
      zl, rest, prevlen, left := zl + [e.value.0], e.value.1, |e.value.0|, left - 1;
    }
    return Some((zl, rest));
  }

  method DeserializeZiplist(b: Buf) returns (r: Option<seq<Buf>>)
    ensures r == LoadZiplist(b)
  {
    if |b| < 10 { return None; }
    var entries := ReadEntries(b[10..], FromLe(b[8..10]));
    if entries.None? || entries.value.1 == [] || entries.value.1[0] != 0xff { return None; }
    return Some(entries.value.0);
  }

  function Behind(list: seq<Buf>, r: Option<seq<Buf>>): Option<seq<Buf>>
  {
    if r.None? then None else Some(list + r.value)
  }

  lemma BehindOneMore(list: seq<Buf>, zl: seq<Buf>, r: Option<seq<Buf>>)
    ensures Behind(list, Behind(zl, r)) == Behind(list + zl, r)
    ensures Behind([], r) == r
  {
    if r.Some? {
      assert list + (zl + r.value) == (list + zl) + r.value;
      assert [] + r.value == r.value;
    }
  }

  /** The loop over the ziplists. */
  method LoadAll(b: Buf, n: nat) returns (r: Option<seq<Buf>>)
    ensures r == LoadLists(b, n)
  {
    var count, rest := n, b;
    var list: seq<Buf> := [];
    BehindOneMore([], [], LoadLists(b, n));
    while count > 0
      invariant LoadLists(b, n) == Behind(list, LoadLists(rest, count))
    {
      var s := LoadString(rest);
      if s.None? { return None; }
      var zl := DeserializeZiplist(s.value.0);
      if zl.None? { return None; }
      BehindOneMore(list, zl.value, LoadLists(s.value.1, count - 1));
      list, rest, count := list + zl.value, s.value.1, count - 1;
    }
    assert list + [] == list;
    return Some(list);
  }

  method Restore(payload: Buf, crc: Buf -> nat) returns (r: Option<seq<Buf>>)
    ensures r == RestoreList(payload, crc)
  {
    if !VerifyDumpPayload(payload, crc) || payload[0] != QUICKLIST { return None; }
    var l := LoadLen(payload[1..]);
    if l.None? { return None; }
    r := LoadAll(l.value.rest, l.value.value);
  }
}
