/**
 Record keys as bytes. The key of an element starts with its slot, type, database and primary key, a zero byte
 and a version; the store keeps all records in the order of these bytes.
 */
module RecordKeys {
  import opened Names
  import opened Bytes
  import opened WireFields

  /** `kind` is the character of the record type; elements are stored at version 0. */
  datatype RecKey = RecKey(chunk: nat, kind: Byte, db: nat, pk: Buf, sk: Buf)

  function Head(k: RecKey): (b: Buf)
    ensures |b| == 9
  {
    Be(k.chunk, 4) + [k.kind] + Be(k.db, 4)
  }

  /** Everything up to the zero byte behind the primary key. */
  function Stem(k: RecKey): Buf
  {
    Head(k) + k.pk + [0]
  }

  /** With the version: what all elements of one key have in common. */
  function PrefixPk(k: RecKey): Buf
  {
    Stem(k) + [0]
  }

  function Reverse(b: Buf): Buf
  {
    if b == [] then [] else Reverse(b[1..]) + [b[0]]
  }

  function Encode(k: RecKey): Buf
  {
    PrefixPk(k) + (k.sk + Reverse(Varint(|k.pk|)) + [0])
  }

  /** The upper bound of the range of a key's elements: the largest version instead of zero. */
  function RangeEnd(k: RecKey): Buf
  {
    Stem(k) + LAST_VERSION
  }

  const LAST_VERSION: Buf := [255, 255, 255, 255, 255, 255, 255, 255, 255, 1]

  predicate SameKey(a: RecKey, b: RecKey)
  {
    a.chunk == b.chunk && a.kind == b.kind && a.db == b.db && a.pk == b.pk
  }

  // ---------------------------------------------------------------- the order of the store

  predicate Before(a: Buf, b: Buf)
  {
    if b == [] then false
    else if a == [] then true
    else a[0] < b[0] || (a[0] == b[0] && Before(a[1..], b[1..]))
  }

  lemma {:induction false} BeforeIsTotal(a: Buf, b: Buf)
    ensures Before(a, b) || Before(b, a) || a == b
    ensures !(Before(a, b) && Before(b, a)) && !Before(a, a)
  {
    if a != [] && b != [] && a[0] == b[0] {
      BeforeIsTotal(a[1..], b[1..]);
      if a[1..] == b[1..] { assert a == [a[0]] + a[1..] == [b[0]] + b[1..] == b; }
    }
    if a != [] { BeforeIsTotal(a[1..], a[1..]); }
  }

  lemma {:induction false} BeforeIsTransitive(a: Buf, b: Buf, c: Buf)
    requires Before(a, b) && Before(b, c)
    ensures Before(a, c)
  {
    if a != [] && a[0] == b[0] == c[0] { BeforeIsTransitive(a[1..], b[1..], c[1..]); }
  }

  lemma {:induction false} ExtensionIsLater(q: Buf, a: Buf)
    ensures !Before(q + a, q)
  {
    if q != [] {
      assert (q + a)[1..] == q[1..] + a;
      ExtensionIsLater(q[1..], a);
    }
  }

  lemma {:induction false} CommonStart(q: Buf, a: Buf, b: Buf)
    ensures Before(q + a, q + b) <==> Before(a, b)
  {
    if q == [] {
      assert q + a == a && q + b == b;
    } else {
      assert (q + a)[1..] == q[1..] + a && (q + b)[1..] == q[1..] + b;
      CommonStart(q[1..], a, b);
    }
  }

  predicate StartsWith(e: Buf, q: Buf)
  {
    |q| <= |e| && e[..|q|] == q
  }

  /** What lies between two extensions of a string is an extension of it. */
  lemma {:induction false} BetweenExtensions(q: Buf, e: Buf, a: Buf, b: Buf)
    requires !Before(e, q + a) && Before(e, q + b)
    ensures StartsWith(e, q)
    decreases |q|
  {
    if q != [] {
      assert (q + a)[1..] == q[1..] + a && (q + b)[1..] == q[1..] + b;
      assert e != [] && e[0] == q[0];
      BetweenExtensions(q[1..], e[1..], a, b);
      assert e[..|q|] == [e[0]] + e[1..][..|q| - 1];
      assert q == [q[0]] + q[1..];
    }
  }

  // ---------------------------------------------------------------- one key among others

  predicate Proper(k: RecKey)
  {
    k.chunk < Pow256(4) && k.db < Pow256(4)
  }

  predicate NulFree(pk: Buf)
  {
    forall i | 0 <= i < |pk| :: pk[i] != 0
  }

  /** The bytes of the record lie in the range that is deleted for the elements of `m`. */
  predicate InRange(k: RecKey, m: RecKey)
  {
    !Before(Encode(k), PrefixPk(m)) && Before(Encode(k), RangeEnd(m))
  }

  /** The walk compares prefixes, which tell the keys apart. */
  lemma PrefixTellsKeys(k: RecKey, m: RecKey)
    requires Proper(k) && Proper(m)
    ensures PrefixPk(k) == PrefixPk(m) <==> SameKey(k, m)
  {
    if PrefixPk(k) == PrefixPk(m) {
      SameMiddle(Head(k), k.pk, Head(m), m.pk, [0]);
      SameStartSameHead(k, m);
    }
  }

  lemma SameMiddle(head: Buf, pk: Buf, otherHead: Buf, other: Buf, end: Buf)
    requires |head| == |otherHead| && head + pk + end + end == otherHead + other + end + end
    ensures head == otherHead && pk == other
  {
    var a, b, n := head + pk + end + end, otherHead + other + end + end, |head|;
    assert head == a[..n] == b[..n] == otherHead;
    assert pk == a[n..n + |pk|] == b[n..n + |pk|] == other;
  }

  lemma SameStem(k: RecKey, m: RecKey)
    requires SameKey(k, m)
    ensures Stem(k) == Stem(m) && PrefixPk(k) == PrefixPk(m)
  {
  }

  lemma OwnInRange(k: RecKey, m: RecKey)
    requires SameKey(k, m)
    ensures InRange(k, m)
  {
    SameStem(k, m);
    var tail := k.sk + Reverse(Varint(|k.pk|)) + [0];
    ExtensionIsLater(PrefixPk(m), tail);
    Regroup(Stem(m), [0], tail);
    assert Before([0] + tail, LAST_VERSION);
    CommonStart(Stem(m), [0] + tail, LAST_VERSION);
  }

  lemma RangeHasStem(k: RecKey, m: RecKey)
    requires InRange(k, m)
    ensures StartsWith(Encode(k), Stem(m))
  {
    BetweenExtensions(Stem(m), Encode(k), [0], LAST_VERSION);
  }

  /** What sorts between the prefix of a key and one of its elements starts with that prefix too. */
  lemma BeforeOwnHasStem(k: RecKey, own: RecKey, m: RecKey)
    requires SameKey(own, m) && !Before(Encode(k), PrefixPk(m)) && Before(Encode(k), Encode(own))
    ensures StartsWith(Encode(k), Stem(m))
  {
    SameStem(own, m);
    assert PrefixPk(m) + [] == PrefixPk(m);
    BetweenExtensions(PrefixPk(m), Encode(k), [], own.sk + Reverse(Varint(|own.pk|)) + [0]);
    Shorter(Encode(k), Stem(m), [0]);
  }

  lemma Shorter(e: Buf, q: Buf, a: Buf)
    requires StartsWith(e, q + a)
    ensures StartsWith(e, q)
  {
    assert q == (q + a)[..|q|] == e[..|q + a|][..|q|] == e[..|q|];
  }

  lemma {:induction false} SameStartSameHead(k: RecKey, m: RecKey)
    requires Proper(k) && Proper(m) && Head(k) == Head(m)
    ensures k.chunk == m.chunk && k.kind == m.kind && k.db == m.db
  {
    var a, b := Head(k), Head(m);
    assert Be(k.chunk, 4) == a[..4] == b[..4] == Be(m.chunk, 4);
    assert Be(k.db, 4) == a[5..] == b[5..] == Be(m.db, 4);
    assert k.kind == a[4] == b[4] == m.kind;
    BeRoundTrip(k.chunk, 4);
    BeRoundTrip(m.chunk, 4);
    BeRoundTrip(k.db, 4);
    BeRoundTrip(m.db, 4);
  }

  lemma EncodeParts(k: RecKey, tail: Buf)
    requires tail == [0] + (k.sk + Reverse(Varint(|k.pk|)) + [0])
    ensures Encode(k) == Head(k) + (k.pk + [0] + tail)
  {
    var last := k.sk + Reverse(Varint(|k.pk|)) + [0];
    Regroup(Stem(k), [0], last);
    Regroup(Head(k) + k.pk, [0], tail);
    Regroup(Head(k), k.pk, [0] + tail);
    Regroup(k.pk, [0], tail);
  }

  lemma CutHead(head: Buf, rest: Buf, q: Buf, e: Buf, stem: Buf)
    requires e == head + rest && stem == head + q && StartsWith(e, stem)
    ensures StartsWith(rest, q)
  {
    assert q == stem[|head|..] == e[..|stem|][|head|..] == rest[..|q|];
  }

  // ---------------------------------------------------------------- one key inside another

  /** The bytes behind the zero byte that ends the primary key: version, subkey, length of the primary key. */
  function Tail(k: RecKey): Buf
  {
    [0] + (k.sk + Reverse(Varint(|k.pk|)) + [0])
  }

  predicate SameHead(k: RecKey, m: RecKey)
  {
    k.chunk == m.chunk && k.kind == m.kind && k.db == m.db
  }

  /**
   Another key's record that starts like the elements of `m`: its primary key goes on behind `m`'s with a zero
   byte, or ends in front of one inside `m`'s, which its subkey then goes on to spell.
   */
  predicate Inside(k: RecKey, m: RecKey)
  {
    && SameHead(k, m)
    && (StartsWith(k.pk, m.pk + [0])
        || (StartsWith(m.pk, k.pk + [0]) && StartsWith(Tail(k), m.pk[|k.pk| + 1..] + [0])))
  }

  /** What such a record has in place of an element's version and subkey. */
  function Rest(k: RecKey, m: RecKey): Buf
    requires Inside(k, m)
  {
    if StartsWith(k.pk, m.pk + [0]) then k.pk[|m.pk| + 1..] + [0] + Tail(k) else Tail(k)[|m.pk| - |k.pk|..]
  }

  /** Such a record sorts below the largest version. */
  predicate Swallowed(k: RecKey, m: RecKey)
  {
    Inside(k, m) && Rest(k, m) != [] && Before(Rest(k, m), LAST_VERSION)
  }

  /** Such a record sorts in front of an element. */
  predicate Among(k: RecKey, own: RecKey, m: RecKey)
  {
    Inside(k, m) && Rest(k, m) != [] && Before(Rest(k, m), Tail(own))
  }

  lemma EncodeTail(k: RecKey)
    ensures Encode(k) == Stem(k) + Tail(k)
  {
    Regroup(Stem(k), [0], k.sk + Reverse(Varint(|k.pk|)) + [0]);
  }

  /** Where a string goes on behind a zero byte, seen from both ends. */
  lemma GoesOn(pk: Buf, tail: Buf, other: Buf)
    requires StartsWith(pk + [0] + tail, other + [0])
    ensures |pk| > |other| ==> StartsWith(pk, other + [0])
    ensures |pk| == |other| ==> pk == other
    ensures |pk| < |other| ==> StartsWith(other, pk + [0]) && StartsWith(tail, other[|pk| + 1..] + [0])
  {
    var e, q := pk + [0] + tail, other + [0];
    assert forall i | 0 <= i < |q| :: e[i] == e[..|q|][i] == q[i];
    if |pk| > |other| {
      assert forall i | 0 <= i < |q| :: pk[i] == e[i] == q[i];
    } else if |pk| == |other| {
      assert forall i | 0 <= i < |pk| :: pk[i] == e[i] == q[i] == other[i];
    } else {
      assert forall i | 0 <= i < |pk| + 1 :: other[i] == q[i] == e[i] == (pk + [0])[i];
      var behind := other[|pk| + 1..] + [0];
      assert forall i | 0 <= i < |behind| :: tail[i] == e[|pk| + 1 + i] == q[|pk| + 1 + i] == behind[i];
    }
  }

  lemma GoesOnOnly(pk: Buf, tail: Buf, other: Buf)
    ensures StartsWith(pk, other + [0]) ==> pk + [0] + tail == other + [0] + (pk[|other| + 1..] + [0] + tail)
    ensures StartsWith(other, pk + [0]) && StartsWith(tail, other[|pk| + 1..] + [0]) ==>
              pk + [0] + tail == other + [0] + tail[|other| - |pk|..]
  {
    if StartsWith(pk, other + [0]) {
      assert pk == other + [0] + pk[|other| + 1..];
    }
    if StartsWith(other, pk + [0]) && StartsWith(tail, other[|pk| + 1..] + [0]) {
      assert other == pk + [0] + other[|pk| + 1..];
      assert tail == other[|pk| + 1..] + [0] + tail[|other| - |pk|..];
    }
  }

  lemma InsideBytes(k: RecKey, m: RecKey)
    requires Inside(k, m)
    ensures k.pk != m.pk && Encode(k) == Stem(m) + Rest(k, m)
  {
    EncodeParts(k, Tail(k));
    GoesOnOnly(k.pk, Tail(k), m.pk);
    Regroup(Head(m), m.pk + [0], Rest(k, m));
    Regroup(Head(m), m.pk, [0]);
  }

  /** A record whose bytes start like an element's is an element, or lies inside. */
  lemma StemExactly(k: RecKey, m: RecKey)
    requires Proper(k) && Proper(m)
    ensures StartsWith(Encode(k), Stem(m)) <==> SameKey(k, m) || Inside(k, m)
  {
    if SameKey(k, m) {
      SameStem(k, m);
      EncodeTail(k);
      Starts(Stem(m), Tail(k));
    }
    if Inside(k, m) {
      InsideBytes(k, m);
      Starts(Stem(m), Rest(k, m));
    }
    if StartsWith(Encode(k), Stem(m)) {
      StemOfHead(k, m);
      if k.pk != m.pk { GoesOn(k.pk, Tail(k), m.pk); }
    }
  }

  /** Without zero bytes in the primary keys of one record type, a stem belongs to one key only. */
  lemma StemIsOwn(k: RecKey, m: RecKey)
    requires Proper(k) && Proper(m) && NulFree(m.pk) && StartsWith(Encode(k), Stem(m))
    requires k.kind == m.kind ==> NulFree(k.pk)
    ensures SameKey(k, m)
  {
    StemExactly(k, m);
    NulFreeIsNotInside(k, m);
  }

  lemma NulFreeIsNotInside(k: RecKey, m: RecKey)
    requires NulFree(m.pk) && (k.kind == m.kind ==> NulFree(k.pk))
    ensures !Inside(k, m)
  {
    HasNul(k.pk, m.pk);
    HasNul(m.pk, k.pk);
  }

  lemma HasNul(pk: Buf, q: Buf)
    ensures StartsWith(pk, q + [0]) ==> !NulFree(pk)
  {
    if StartsWith(pk, q + [0]) { assert pk[|q|] == pk[..|q| + 1][|q|] == 0; }
  }

  lemma Starts(q: Buf, a: Buf)
    ensures StartsWith(q + a, q)
  {
  }

  lemma StemOfHead(k: RecKey, m: RecKey)
    requires Proper(k) && Proper(m) && StartsWith(Encode(k), Stem(m))
    ensures SameHead(k, m) && StartsWith(k.pk + [0] + Tail(k), m.pk + [0])
  {
    EncodeParts(k, Tail(k));
    var e := Encode(k);
    assert Head(k) == e[..9] == e[..|Stem(m)|][..9] == Stem(m)[..9] == Head(m);
    SameStartSameHead(k, m);
    CutHead(Head(m), k.pk + [0] + Tail(k), m.pk + [0], e, Stem(m));
  }

  lemma AgainstVersion(rest: Buf, k: RecKey, m: RecKey, a: Buf)
    requires Encode(k) == Stem(m) + rest
    ensures Before(Encode(k), PrefixPk(m)) <==> rest == []
    ensures Before(Encode(k), Stem(m) + a) <==> Before(rest, a)
  {
    CommonStart(Stem(m), rest, [0]);
    CommonStart(Stem(m), rest, a);
  }

  /** The range of a key's elements holds its own elements, and other keys' records exactly if they are swallowed. */
  lemma InRangeExactly(k: RecKey, m: RecKey)
    requires Proper(k) && Proper(m)
    ensures InRange(k, m) <==> SameKey(k, m) || Swallowed(k, m)
  {
    if SameKey(k, m) {
      OwnInRange(k, m);
    } else if Inside(k, m) {
      InsideBytes(k, m);
      AgainstVersion(Rest(k, m), k, m, LAST_VERSION);
    } else if InRange(k, m) {
      RangeHasStem(k, m);
      StemExactly(k, m);
    }
  }

  /** Another key's record sorts between the prefix and an element exactly if its bytes say so. */
  lemma AmongExactly(k: RecKey, own: RecKey, m: RecKey)
    requires Proper(k) && Proper(m) && SameKey(own, m) && !SameKey(k, m)
    ensures !Before(Encode(k), PrefixPk(m)) && Before(Encode(k), Encode(own)) <==> Among(k, own, m)
  {
    SameStem(own, m);
    EncodeTail(own);
    if Inside(k, m) {
      InsideBytes(k, m);
      AgainstVersion(Rest(k, m), k, m, Tail(own));
    } else if !Before(Encode(k), PrefixPk(m)) && Before(Encode(k), Encode(own)) {
      BeforeOwnHasStem(k, own, m);
      StemExactly(k, m);
    }
  }

  /** What disturbs a walk is also deleted by the range. */
  lemma AmongIsSwallowed(k: RecKey, own: RecKey, m: RecKey)
    requires Among(k, own, m)
    ensures Swallowed(k, m)
  {
    assert Before(Tail(own), LAST_VERSION);
    BeforeIsTransitive(Rest(k, m), Tail(own), LAST_VERSION);
  }

  // ---------------------------------------------------------------- ranges of slots

  lemma {:induction false} EarlierBlock(a: Buf, b: Buf, x: Buf, y: Buf)
    requires |a| == |b| && Before(a, b)
    ensures Before(a + x, b + y)
    decreases |a|
  {
    assert (a + x)[1..] == a[1..] + x && (b + y)[1..] == b[1..] + y;
    if a[0] == b[0] { EarlierBlock(a[1..], b[1..], x, y); }
  }

  /** Big-endian numbers of one width are ordered like their bytes. */
  lemma {:induction false} NumbersInOrder(a: nat, b: nat, width: nat)
    requires a < b < Pow256(width)
    ensures Before(Be(a, width), Be(b, width))
    decreases width
  {
    if a / 256 == b / 256 {
      CommonStart(Be(a / 256, width - 1), [a % 256], [b % 256]);
    } else {
      NumbersInOrder(a / 256, b / 256, width - 1);
      EarlierBlock(Be(a / 256, width - 1), Be(b / 256, width - 1), [a % 256], [b % 256]);
    }
  }

  predicate Between(b: Buf, low: Buf, high: Buf)
  {
    !Before(b, low) && Before(b, high)
  }

  /** The keys between two slot prefixes are the keys of the slots in between. */
  lemma SlotRange(k: RecKey, first: nat, end: nat)
    requires Proper(k) && first <= end < Pow256(4)
    ensures Between(Encode(k), Be(first, 4), Be(end, 4)) <==> first <= k.chunk < end
  {
    var rest := [k.kind] + Be(k.db, 4) + k.pk + [0] + [0] + (k.sk + Reverse(Varint(|k.pk|)) + [0]);
    assert Encode(k) == Be(k.chunk, 4) + rest;
    AgainstSlot(k.chunk, first, rest);
    AgainstSlot(k.chunk, end, rest);
  }

  lemma AgainstSlot(chunk: nat, slot: nat, rest: Buf)
    requires chunk < Pow256(4) && slot < Pow256(4)
    ensures Before(Be(chunk, 4) + rest, Be(slot, 4)) <==> chunk < slot
  {
    assert Be(slot, 4) + [] == Be(slot, 4);
    if chunk < slot {
      NumbersInOrder(chunk, slot, 4);
      EarlierBlock(Be(chunk, 4), Be(slot, 4), rest, []);
    } else if chunk == slot {
      ExtensionIsLater(Be(slot, 4), rest);
    } else {
      NumbersInOrder(slot, chunk, 4);
      EarlierBlock(Be(slot, 4), Be(chunk, 4), [], rest);
      BeforeIsTotal(Be(slot, 4), Be(chunk, 4) + rest);
    }
  }

  // ---------------------------------------------------------------- the slot of a key

  /** The first place from `i` on with the given byte, or the end. */
  function Find(pk: Buf, c: Byte, i: nat): (r: nat)
    requires i <= |pk|
    ensures i <= r <= |pk|
    decreases |pk| - i
  {
    if i == |pk| || pk[i] == c then i else Find(pk, c, i + 1)
  }

  function TagStart(pk: Buf): nat
  {
    Find(pk, '{' as int, 0)
  }

  function TagEnd(pk: Buf): nat
    requires TagStart(pk) < |pk|
  {
    Find(pk, '}' as int, TagStart(pk) + 1)
  }

  predicate Tagged(pk: Buf)
  {
    TagStart(pk) < |pk| && TagStart(pk) + 1 < TagEnd(pk) < |pk|
  }

  /** What is between the first braces decides the slot, if there is anything; otherwise the whole key. */
  function HashPart(pk: Buf): Buf
  {
    if Tagged(pk) then pk[TagStart(pk) + 1..TagEnd(pk)] else pk
  }

  function Slot(pk: Buf, crc16: Buf -> nat): (slot: nat)
    ensures slot < 16384
  {
    crc16(HashPart(pk)) % 16384
  }

  lemma {:induction false} FindStays(pk: Buf, more: Buf, c: Byte, i: nat)
    requires i <= |pk| && Find(pk, c, i) < |pk|
    ensures Find(pk + more, c, i) == Find(pk, c, i)
    decreases |pk| - i
  {
    if pk[i] != c { FindStays(pk, more, c, i + 1); }
  }

  /** A key with a tag keeps its slot whatever is put behind it. */
  lemma TaggedKeepsSlot(pk: Buf, more: Buf, crc16: Buf -> nat)
    requires Tagged(pk)
    ensures Slot(pk + more, crc16) == Slot(pk, crc16)
  {
    FindStays(pk, more, '{' as int, 0);
    FindStays(pk, more, '}' as int, TagStart(pk) + 1);
    assert HashPart(pk + more) == HashPart(pk);
  }
}
