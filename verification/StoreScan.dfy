/**
 Walking the records of one key, page by page or to delete them. A walk starts at the key's prefix and stops at
 the first record of another key, so it sees a stretch of the store; the elements of the key may be more than
 that, but only if another key's records sort among them.
 */
module StoreScan {
  import opened Names
  import opened Bytes
  import opened WireFields
  import opened RecordKeys

  /** A record with its key, and the bytes of the key, by which the store is ordered. */
  datatype Rec = Rec(key: RecKey, bytes: Buf, value: Buf)

  ghost predicate Sorted(store: seq<Rec>)
  {
    forall i, j | 0 <= i < j < |store| :: Before(store[i].bytes, store[j].bytes)
  }

  ghost predicate Encoded(store: seq<Rec>)
  {
    forall i | 0 <= i < |store| :: store[i].bytes == Encode(store[i].key)
  }

  /** The first record that does not sort before `p`. */
  function Seek(store: seq<Rec>, p: Buf, i: nat): (r: nat)
    requires i <= |store|
    ensures i <= r <= |store|
    decreases |store| - i
  {
    if i == |store| || !Before(store[i].bytes, p) then i else Seek(store, p, i + 1)
  }

  lemma {:induction false} SeekFinds(store: seq<Rec>, p: Buf, i: nat)
    requires i <= |store|
    ensures var r := Seek(store, p, i);
            && (forall k | i <= k < r :: Before(store[k].bytes, p))
            && (r < |store| ==> !Before(store[r].bytes, p))
    decreases |store| - i
  {
    if i < |store| && Before(store[i].bytes, p) { SeekFinds(store, p, i + 1); }
  }

  /** The end of the stretch of records of one key that starts at `i`. */
  function StretchEnd(store: seq<Rec>, m: RecKey, i: nat): (r: nat)
    requires i <= |store|
    ensures i <= r <= |store|
    decreases |store| - i
  {
    if i == |store| || !SameKey(store[i].key, m) then i else StretchEnd(store, m, i + 1)
  }

  lemma {:induction false} StretchIsOwn(store: seq<Rec>, m: RecKey, i: nat)
    requires i <= |store|
    ensures var r := StretchEnd(store, m, i);
            && (forall k | i <= k < r :: SameKey(store[k].key, m))
            && (r < |store| ==> !SameKey(store[r].key, m))
    decreases |store| - i
  {
    if i < |store| && SameKey(store[i].key, m) { StretchIsOwn(store, m, i + 1); }
  }

  function Start(store: seq<Rec>, m: RecKey): nat
  {
    Seek(store, PrefixPk(m), 0)
  }

  function Stretch(store: seq<Rec>, m: RecKey): seq<Rec>
  {
    store[Start(store, m)..StretchEnd(store, m, Start(store, m))]
  }

  lemma SeekFindsKey(store: seq<Rec>, i: nat)
    requires Sorted(store) && i < |store|
    ensures Seek(store, store[i].bytes, 0) == i
  {
    var r := Seek(store, store[i].bytes, 0);
    SeekFinds(store, store[i].bytes, 0);
    BeforeIsTotal(store[i].bytes, store[i].bytes);
    assert r >= i;
  }

  // ---------------------------------------------------------------- pages

  /** At most `cnt` records, and the key of the next one as the cursor to go on from. */
  datatype Page = Page(next: Option<Buf>, records: seq<Rec>)

  function PageAt(store: seq<Rec>, m: RecKey, i: nat, cnt: nat): Page
    requires i <= |store|
  {
    var end := StretchEnd(store, m, i);
    if end - i > cnt then Page(Some(store[i + cnt].bytes), store[i..i + cnt]) else Page(None, store[i..end])
  }

  /** One call of the scan: reads one record more than it returns. */
  method Scan(store: seq<Rec>, m: RecKey, from: Option<Buf>, cnt: nat) returns (page: Page)
    ensures page == PageAt(store, m, Seek(store, if from.Some? then from.value else PrefixPk(m), 0), cnt)
  {
    var start := Seek(store, if from.Some? then from.value else PrefixPk(m), 0);
    var i := start;
    var result: seq<Rec> := [];
    while |result| < cnt + 1 && i < |store| && SameKey(store[i].key, m)
      invariant start <= i <= |store| && result == store[start..i] && |result| <= cnt + 1
      invariant StretchEnd(store, m, i) == StretchEnd(store, m, start)
      decreases |store| - i
    {
      OneMore(store, start, i);
      result := result + [store[i]];
      i := i + 1;
    }
    PageOf(store, m, start, i, cnt);
    if |result| == cnt + 1 {
      page := Page(Some(result[cnt].bytes), result[..cnt]);
    } else {
      page := Page(None, result);
    }
  }

  lemma PageOf(store: seq<Rec>, m: RecKey, start: nat, i: nat, cnt: nat)
    requires start <= i <= |store| && i - start <= cnt + 1 && StretchEnd(store, m, i) == StretchEnd(store, m, start)
    requires i - start == cnt + 1 || StretchEnd(store, m, i) == i
    ensures var result := store[start..i];
            PageAt(store, m, start, cnt)
            == if |result| == cnt + 1 then Page(Some(result[cnt].bytes), result[..cnt]) else Page(None, result)
  {
    var end := StretchEnd(store, m, start);
    if i - start == cnt + 1 {
      assert end - start > cnt;
      assert store[start..i][..cnt] == store[start..start + cnt];
    }
  }

  lemma OneMore(store: seq<Rec>, start: nat, i: nat)
    requires start <= i < |store|
    ensures store[start..i] + [store[i]] == store[start..i + 1]
  {
  }

  /** Asking for page after page, from the cursor each one returns, until there is none. */
  function AllPages(store: seq<Rec>, m: RecKey, i: nat, cnt: nat): seq<Rec>
    requires i <= |store| && cnt > 0 && Sorted(store)
    decreases StretchEnd(store, m, i) - i
  {
    var page := PageAt(store, m, i, cnt);
    if page.next.None? then page.records
    else
      NextPage(store, m, i, cnt);
      page.records + AllPages(store, m, Seek(store, page.next.value, 0), cnt)
  }

  lemma NextPage(store: seq<Rec>, m: RecKey, i: nat, cnt: nat)
    requires i <= |store| && Sorted(store) && StretchEnd(store, m, i) - i > cnt
    ensures Seek(store, store[i + cnt].bytes, 0) == i + cnt
    ensures StretchEnd(store, m, i + cnt) == StretchEnd(store, m, i)
  {
    SeekFindsKey(store, i + cnt);
    SameStretch(store, m, i, i + cnt);
  }

  lemma {:induction false} SameStretch(store: seq<Rec>, m: RecKey, i: nat, j: nat)
    requires i <= |store| && i <= j <= StretchEnd(store, m, i)
    ensures StretchEnd(store, m, j) == StretchEnd(store, m, i)
    decreases j - i
  {
    if i < j { SameStretch(store, m, i + 1, j); }
  }

  lemma Halves(store: seq<Rec>, i: nat, j: nat, k: nat)
    requires i <= j <= k <= |store|
    ensures store[i..j] + store[j..k] == store[i..k]
  {
  }

  /** The pages together are the stretch, every record once and in order. */
  lemma {:induction false} PagesAreTheStretch(store: seq<Rec>, m: RecKey, i: nat, cnt: nat)
    requires i <= |store| && cnt > 0 && Sorted(store)
    ensures AllPages(store, m, i, cnt) == store[i..StretchEnd(store, m, i)]
    decreases StretchEnd(store, m, i) - i
  {
    var end := StretchEnd(store, m, i);
    if end - i > cnt {
      NextPage(store, m, i, cnt);
      PagesAreTheStretch(store, m, i + cnt, cnt);
      Halves(store, i, i + cnt, end);
    }
  }

  // ---------------------------------------------------------------- when the stretch is the whole key

  /** No record of another key sorts between the prefix and an element of this one. */
  ghost predicate Undisturbed(store: seq<Rec>, m: RecKey)
  {
    forall i, j | Start(store, m) <= i < j < |store| && SameKey(store[j].key, m) :: SameKey(store[i].key, m)
  }

  predicate InStretch(store: seq<Rec>, m: RecKey, j: nat)
  {
    Start(store, m) <= j < StretchEnd(store, m, Start(store, m))
  }

  lemma OwnIsAfterStart(store: seq<Rec>, m: RecKey, j: nat)
    requires Encoded(store) && j < |store| && SameKey(store[j].key, m)
    ensures Start(store, m) <= j
  {
    SeekFinds(store, PrefixPk(m), 0);
    OwnInRange(store[j].key, m);
  }

  lemma UndisturbedIsSeen(store: seq<Rec>, m: RecKey, j: nat)
    requires Encoded(store) && Undisturbed(store, m) && j < |store|
    ensures InStretch(store, m, j) <==> SameKey(store[j].key, m)
  {
    StretchIsOwn(store, m, Start(store, m));
    if SameKey(store[j].key, m) { OwnIsAfterStart(store, m, j); }
  }

  lemma DisturbedIsNotSeen(store: seq<Rec>, m: RecKey) returns (j: nat)
    requires !Undisturbed(store, m)
    ensures j < |store| && SameKey(store[j].key, m) && !InStretch(store, m, j)
  {
    StretchIsOwn(store, m, Start(store, m));
    var i: nat, k: nat :| Start(store, m) <= i < k < |store| && SameKey(store[k].key, m) && !SameKey(store[i].key, m);
    j := k;
  }

  /** The walk sees every element of the key exactly if nothing else sorts among them. */
  lemma SeesAllExactlyIfUndisturbed(store: seq<Rec>, m: RecKey)
    requires Encoded(store)
    ensures (forall j: nat | j < |store| :: InStretch(store, m, j) <==> SameKey(store[j].key, m)) <==> Undisturbed(store, m)
  {
    if Undisturbed(store, m) {
      forall j: nat | j < |store| ensures InStretch(store, m, j) <==> SameKey(store[j].key, m) {
        UndisturbedIsSeen(store, m, j);
      }
    } else {
      var j := DisturbedIsNotSeen(store, m);
    }
  }

  ghost predicate AllProper(store: seq<Rec>)
  {
    forall i | 0 <= i < |store| :: Proper(store[i].key)
  }

  /** No other key's record lies inside this key and in front of one of its elements. */
  ghost predicate NoneAmong(store: seq<Rec>, m: RecKey)
  {
    forall i, j | 0 <= i < |store| && 0 <= j < |store| && SameKey(store[j].key, m) && !SameKey(store[i].key, m) ::
      !Among(store[i].key, store[j].key, m)
  }

  /** What disturbs a walk can be told from the keys alone. */
  lemma UndisturbedExactlyIfNoneAmong(store: seq<Rec>, m: RecKey)
    requires Sorted(store) && Encoded(store) && AllProper(store) && Proper(m)
    ensures Undisturbed(store, m) <==> NoneAmong(store, m)
  {
    forall i: nat, j: nat | i < |store| && j < |store| && SameKey(store[j].key, m) && !SameKey(store[i].key, m)
      ensures Among(store[i].key, store[j].key, m) <==> Start(store, m) <= i < j
    {
      AmongByPlace(store, m, i, j);
    }
  }

  lemma AmongByPlace(store: seq<Rec>, m: RecKey, i: nat, j: nat)
    requires Sorted(store) && Encoded(store) && AllProper(store) && Proper(m)
    requires i < |store| && j < |store| && SameKey(store[j].key, m) && !SameKey(store[i].key, m)
    ensures Among(store[i].key, store[j].key, m) <==> Start(store, m) <= i < j
  {
    AmongExactly(store[i].key, store[j].key, m);
    SeekFinds(store, PrefixPk(m), 0);
    if Start(store, m) <= i { NotBeforeStart(store, m, i); }
    PlacesInOrder(store, i, j);
  }

  lemma PlacesInOrder(store: seq<Rec>, i: nat, j: nat)
    requires Sorted(store) && i < |store| && j < |store|
    ensures Before(store[i].bytes, store[j].bytes) <==> i < j
  {
    BeforeIsTotal(store[i].bytes, store[j].bytes);
    if j < i { assert Before(store[j].bytes, store[i].bytes); }
  }

  /** Records of other types, such as TTL index entries, may have any primary key. */
  ghost predicate AllNulFree(store: seq<Rec>, kind: Byte)
  {
    forall i | 0 <= i < |store| && store[i].key.kind == kind :: NulFree(store[i].key.pk)
  }

  /** Primary keys without zero bytes never disturb each other. */
  lemma NulFreeIsUndisturbed(store: seq<Rec>, m: RecKey)
    requires Sorted(store) && Encoded(store) && AllProper(store) && AllNulFree(store, m.kind) && Proper(m) && NulFree(m.pk)
    ensures Undisturbed(store, m)
  {
    SeekFinds(store, PrefixPk(m), 0);
    forall i, j | Start(store, m) <= i < j < |store| && SameKey(store[j].key, m) ensures SameKey(store[i].key, m) {
      NotBeforeStart(store, m, i);
      BeforeOwnHasStem(store[i].key, store[j].key, m);
      StemIsOwn(store[i].key, m);
    }
  }

  lemma NotBeforeStart(store: seq<Rec>, m: RecKey, i: nat)
    requires Sorted(store) && Start(store, m) <= i < |store|
    ensures !Before(store[i].bytes, PrefixPk(m))
  {
    var start, p := Start(store, m), PrefixPk(m);
    SeekFinds(store, p, 0);
    if start < i && Before(store[i].bytes, p) { BeforeIsTransitive(store[start].bytes, store[i].bytes, p); }
  }

  // ---------------------------------------------------------------- deleting a key

  /** The key of the elements of one family: a sorted set has two, the other types one. */
  function Family(meta: RecKey, kind: Byte): RecKey
  {
    meta.(kind := kind, sk := [])
  }

  ghost predicate IsElement(k: RecKey, meta: RecKey, kinds: seq<Byte>)
  {
    exists n | 0 <= n < |kinds| :: SameKey(k, Family(meta, kinds[n]))
  }

  function Keys(rs: seq<Rec>): set<RecKey>
  {
    set r | r in rs :: r.key
  }

  /** The keys the cursor path collects: the stretch of each family, and single records such as the meta record. */
  function Pending(store: seq<Rec>, meta: RecKey, kinds: seq<Byte>, singles: set<RecKey>): set<RecKey>
  {
    if kinds == [] then singles
    else Pending(store, meta, kinds[..|kinds| - 1], singles) + Keys(Stretch(store, Family(meta, kinds[|kinds| - 1])))
  }

  function KeyList(rs: seq<Rec>): seq<RecKey>
  {
    seq(|rs|, i requires 0 <= i < |rs| => rs[i].key)
  }

  /** The elements that the walks over the families meet, in order. */
  function Collected(store: seq<Rec>, meta: RecKey, kinds: seq<Byte>): seq<RecKey>
  {
    if kinds == [] then []
    else Collected(store, meta, kinds[..|kinds| - 1]) + KeyList(Stretch(store, Family(meta, kinds[|kinds| - 1])))
  }

  function Limited(keys: seq<RecKey>, subCount: nat): seq<RecKey>
  {
    if |keys| <= subCount then keys else keys[..subCount]
  }

  lemma LimitedTwice(a: seq<RecKey>, b: seq<RecKey>, subCount: nat)
    ensures Limited(Limited(a, subCount) + b, subCount) == Limited(a + b, subCount)
  {
  }

  method CollectFamily(store: seq<Rec>, m: RecKey, had: seq<RecKey>, subCount: nat) returns (keys: seq<RecKey>)
    requires |had| <= subCount
    ensures keys == Limited(had + KeyList(Stretch(store, m)), subCount)
  {
    keys := had;
    var start := Start(store, m);
    var i := start;
    while |keys| < subCount && i < |store| && SameKey(store[i].key, m)
      invariant start <= i <= |store| && StretchEnd(store, m, i) == StretchEnd(store, m, start)
      invariant keys == had + KeyList(store[start..i]) && |keys| <= subCount
      decreases |store| - i
    {
      OneMore(store, start, i);
      keys := keys + [store[i].key];
      i := i + 1;
    }
    PartOfStretch(store, m, i, had, subCount);
  }

  lemma PartOfStretch(store: seq<Rec>, m: RecKey, i: nat, had: seq<RecKey>, subCount: nat)
    requires Start(store, m) <= i <= StretchEnd(store, m, Start(store, m))
    requires var keys := had + KeyList(store[Start(store, m)..i]);
             |keys| == subCount || (|keys| < subCount && i == StretchEnd(store, m, Start(store, m)))
    ensures had + KeyList(store[Start(store, m)..i]) == Limited(had + KeyList(Stretch(store, m)), subCount)
  {
  }

  const UNLIMITED := 0xffff_ffff

  /** Refuses to delete the meta record when the number of elements is limited; otherwise lists what is deleted. */
  method PartialDelSubKeys(store: seq<Rec>, meta: RecKey, kinds: seq<Byte>, subCount: nat, deleteMeta: bool,
                           index: Option<RecKey>) returns (pending: Option<seq<RecKey>>)
    ensures pending.None? <==> deleteMeta && subCount != UNLIMITED
    ensures pending.Some? ==>
              pending.value == Limited(Collected(store, meta, kinds), subCount) + Singles(meta, deleteMeta, index)
  {
    if deleteMeta && subCount != UNLIMITED { return None; }
    var keys: seq<RecKey> := [];
    for n := 0 to |kinds|
      invariant keys == Limited(Collected(store, meta, kinds[..n]), subCount)
    {
      LimitedTwice(Collected(store, meta, kinds[..n]), KeyList(Stretch(store, Family(meta, kinds[n]))), subCount);
      keys := CollectFamily(store, Family(meta, kinds[n]), keys, subCount);
      assert kinds[..n + 1][..n] == kinds[..n];
    }
    assert kinds[..|kinds|] == kinds;
    return Some(keys + Singles(meta, deleteMeta, index));
  }

  /** The meta record and the TTL index entry, if they are to go too. */
  function Singles(meta: RecKey, deleteMeta: bool, index: Option<RecKey>): seq<RecKey>
  {
    (if deleteMeta then [meta] else []) + (if index.Some? then [index.value] else [])
  }

  lemma KeyListMeans(rs: seq<Rec>, k: RecKey)
    ensures k in KeyList(rs) <==> k in Keys(rs)
  {
    if k in KeyList(rs) {
      var i :| 0 <= i < |rs| && KeyList(rs)[i] == k;
      assert rs[i] in rs;
    }
    if k in Keys(rs) {
      var i :| 0 <= i < |rs| && rs[i].key == k;
      assert KeyList(rs)[i] == k;
    }
  }

  /** Without a limit, the listed keys are the pending ones that the theorems speak about. */
  lemma {:induction false} UnlimitedIsPending(store: seq<Rec>, meta: RecKey, kinds: seq<Byte>, singles: set<RecKey>, k: RecKey)
    ensures k in Collected(store, meta, kinds) || k in singles <==> k in Pending(store, meta, kinds, singles)
  {
    if kinds != [] {
      UnlimitedIsPending(store, meta, kinds[..|kinds| - 1], singles, k);
      KeyListMeans(Stretch(store, Family(meta, kinds[|kinds| - 1])), k);
    }
  }

  /** Only elements of the key are listed, whatever the limit. */
  lemma LimitedIsOwn(store: seq<Rec>, meta: RecKey, kinds: seq<Byte>, subCount: nat, k: RecKey)
    requires k in Limited(Collected(store, meta, kinds), subCount)
    ensures IsElement(k, meta, kinds)
  {
    UnlimitedIsPending(store, meta, kinds, {}, k);
    PendingMeans(store, meta, kinds, {}, k);
    var n :| 0 <= n < |kinds| && k in Keys(Stretch(store, Family(meta, kinds[n])));
    var m := Family(meta, kinds[n]);
    StretchIsOwn(store, m, Start(store, m));
    var i := KeyInSlice(store, Start(store, m), StretchEnd(store, m, Start(store, m)), k);
  }

  ghost predicate InSomeStretch(store: seq<Rec>, meta: RecKey, kinds: seq<Byte>, k: RecKey)
  {
    exists n | 0 <= n < |kinds| :: k in Keys(Stretch(store, Family(meta, kinds[n])))
  }

  lemma OneFamilyMore(store: seq<Rec>, meta: RecKey, kinds: seq<Byte>, kind: Byte, k: RecKey)
    ensures InSomeStretch(store, meta, kinds + [kind], k) <==>
            (InSomeStretch(store, meta, kinds, k) || k in Keys(Stretch(store, Family(meta, kind))))
  {
    var more := kinds + [kind];
    if k in Keys(Stretch(store, Family(meta, kind))) { assert k in Keys(Stretch(store, Family(meta, more[|kinds|]))); }
    if InSomeStretch(store, meta, kinds, k) {
      var n :| 0 <= n < |kinds| && k in Keys(Stretch(store, Family(meta, kinds[n])));
      assert k in Keys(Stretch(store, Family(meta, more[n])));
    }
  }

  lemma {:induction false} PendingMeans(store: seq<Rec>, meta: RecKey, kinds: seq<Byte>, singles: set<RecKey>, k: RecKey)
    ensures k in Pending(store, meta, kinds, singles) <==> (k in singles || InSomeStretch(store, meta, kinds, k))
  {
    if kinds != [] {
      var fewer := kinds[..|kinds| - 1];
      PendingMeans(store, meta, fewer, singles, k);
      OneFamilyMore(store, meta, fewer, kinds[|kinds| - 1], k);
      assert fewer + [kinds[|kinds| - 1]] == kinds;
    }
  }

  lemma KeyInSlice(store: seq<Rec>, a: nat, b: nat, k: RecKey) returns (i: nat)
    requires a <= b <= |store| && k in Keys(store[a..b])
    ensures a <= i < b && store[i].key == k
  {
    var r :| r in store[a..b] && r.key == k;
    i :| a <= i < b && store[i] == r;
  }

  /** A record is collected exactly if it stands in the stretch. */
  lemma InStretchExactly(store: seq<Rec>, m: RecKey, j: nat)
    requires Sorted(store) && Encoded(store) && j < |store|
    ensures store[j].key in Keys(Stretch(store, m)) <==> InStretch(store, m, j)
  {
    var start := Start(store, m);
    var end := StretchEnd(store, m, start);
    if InStretch(store, m, j) {
      assert store[j] == store[start..end][j - start];
    }
    if store[j].key in Keys(Stretch(store, m)) {
      var i := KeyInSlice(store, start, end, store[j].key);
      OnceOnly(store, i, j);
    }
  }

  lemma OnceOnly(store: seq<Rec>, i: nat, j: nat)
    requires Sorted(store) && Encoded(store) && i < |store| && j < |store| && store[i].key == store[j].key
    ensures i == j
  {
    var a, b := store[i].bytes, store[j].bytes;
    SameBytes(store, i, j);
    BeforeIsTotal(a, b);
    assert i < j ==> Before(a, b);
    assert j < i ==> Before(b, a);
  }

  lemma SameBytes(store: seq<Rec>, i: nat, j: nat)
    requires Encoded(store) && i < |store| && j < |store| && store[i].key == store[j].key
    ensures store[i].bytes == store[j].bytes
  {
  }

  /** The record belongs to the key that is deleted. */
  ghost predicate IsOwn(k: RecKey, meta: RecKey, kinds: seq<Byte>, singles: set<RecKey>)
  {
    k in singles || IsElement(k, meta, kinds)
  }

  ghost predicate CursorIsExact(store: seq<Rec>, meta: RecKey, kinds: seq<Byte>, singles: set<RecKey>)
  {
    forall j: nat | j < |store| ::
      store[j].key in Pending(store, meta, kinds, singles) <==> IsOwn(store[j].key, meta, kinds, singles)
  }

  /** Record by record, exactly the key's own records are deleted exactly if no family is disturbed. */
  lemma CursorExactlyIfUndisturbed(store: seq<Rec>, meta: RecKey, kinds: seq<Byte>, singles: set<RecKey>)
    requires Sorted(store) && Encoded(store) && forall k | k in singles :: k.kind !in kinds
    ensures CursorIsExact(store, meta, kinds, singles) <==>
            forall n | 0 <= n < |kinds| :: Undisturbed(store, Family(meta, kinds[n]))
  {
    forall n | 0 <= n < |kinds| ensures FamilyIsSeen(store, Family(meta, kinds[n])) <==> Undisturbed(store, Family(meta, kinds[n])) {
      SeesAllExactlyIfUndisturbed(store, Family(meta, kinds[n]));
    }
    if forall n | 0 <= n < |kinds| :: FamilyIsSeen(store, Family(meta, kinds[n])) {
      forall j: nat | j < |store|
        ensures store[j].key in Pending(store, meta, kinds, singles) <==> IsOwn(store[j].key, meta, kinds, singles)
      {
        SeenIsPending(store, meta, kinds, singles, j);
      }
    } else {
      var n :| 0 <= n < |kinds| && !FamilyIsSeen(store, Family(meta, kinds[n]));
      UnseenIsMissed(store, meta, kinds, singles, n);
    }
  }

  ghost predicate FamilyIsSeen(store: seq<Rec>, m: RecKey)
  {
    forall j: nat | j < |store| :: InStretch(store, m, j) <==> SameKey(store[j].key, m)
  }

  lemma SeenIsPending(store: seq<Rec>, meta: RecKey, kinds: seq<Byte>, singles: set<RecKey>, j: nat)
    requires Sorted(store) && Encoded(store) && j < |store|
    requires forall n | 0 <= n < |kinds| :: FamilyIsSeen(store, Family(meta, kinds[n]))
    ensures store[j].key in Pending(store, meta, kinds, singles) <==> IsOwn(store[j].key, meta, kinds, singles)
  {
    var k := store[j].key;
    PendingMeans(store, meta, kinds, singles, k);
    forall n | 0 <= n < |kinds|
      ensures k in Keys(Stretch(store, Family(meta, kinds[n]))) <==> SameKey(k, Family(meta, kinds[n]))
    {
      InStretchExactly(store, Family(meta, kinds[n]), j);
      assert FamilyIsSeen(store, Family(meta, kinds[n]));
    }
  }

  lemma UnseenIsMissed(store: seq<Rec>, meta: RecKey, kinds: seq<Byte>, singles: set<RecKey>, n: nat)
    requires Sorted(store) && Encoded(store) && n < |kinds| && !FamilyIsSeen(store, Family(meta, kinds[n]))
    requires forall k | k in singles :: k.kind !in kinds
    ensures !CursorIsExact(store, meta, kinds, singles)
  {
    var m := Family(meta, kinds[n]);
    StretchIsOwn(store, m, Start(store, m));
    var j: nat :| j < |store| && InStretch(store, m, j) != SameKey(store[j].key, m);
    var k := store[j].key;
    assert SameKey(k, m) && !InStretch(store, m, j);
    assert IsElement(k, meta, kinds);
    PendingMeans(store, meta, kinds, singles, k);
    forall i | 0 <= i < |kinds| ensures k !in Keys(Stretch(store, Family(meta, kinds[i]))) {
      InStretchExactly(store, Family(meta, kinds[i]), j);
      StretchIsOwn(store, Family(meta, kinds[i]), Start(store, Family(meta, kinds[i])));
      if kinds[i] == kinds[n] { assert Family(meta, kinds[i]) == m; }
    }
  }

  /** The range path: everything in the range of a family, and the single records. */
  ghost predicate DropsByRange(k: RecKey, meta: RecKey, kinds: seq<Byte>, singles: set<RecKey>)
  {
    k in singles || exists n | 0 <= n < |kinds| :: InRange(k, Family(meta, kinds[n]))
  }

  /** No other key's record lies inside one of the families and below the largest version. */
  ghost predicate Alone(store: seq<Rec>, meta: RecKey, kinds: seq<Byte>)
  {
    forall j: nat, n | j < |store| && 0 <= n < |kinds| :: !Swallowed(store[j].key, Family(meta, kinds[n]))
  }

  ghost predicate RangeIsExact(store: seq<Rec>, meta: RecKey, kinds: seq<Byte>, singles: set<RecKey>)
  {
    forall j: nat | j < |store| ::
      DropsByRange(store[j].key, meta, kinds, singles) <==> IsOwn(store[j].key, meta, kinds, singles)
  }

  /** By range, exactly the key's own records are deleted exactly if no other key's record is swallowed. */
  lemma RangeExactlyIfAlone(store: seq<Rec>, meta: RecKey, kinds: seq<Byte>, singles: set<RecKey>)
    requires AllProper(store) && Proper(meta) && forall k | k in singles :: k.kind !in kinds
    ensures RangeIsExact(store, meta, kinds, singles) <==> Alone(store, meta, kinds)
  {
    forall j: nat, n | j < |store| && 0 <= n < |kinds|
      ensures var k, m := store[j].key, Family(meta, kinds[n]);
              && (InRange(k, m) <==> SameKey(k, m) || Swallowed(k, m))
              && (Swallowed(k, m) ==> !IsOwn(k, meta, kinds, singles))
    {
      InRangeExactly(store[j].key, Family(meta, kinds[n]));
      if Swallowed(store[j].key, Family(meta, kinds[n])) { SwallowedIsNotOwn(store[j].key, meta, kinds, singles, n); }
    }
    if RangeIsExact(store, meta, kinds, singles) {
      forall j: nat, n | j < |store| && 0 <= n < |kinds| ensures !Swallowed(store[j].key, Family(meta, kinds[n])) {
        if InRange(store[j].key, Family(meta, kinds[n])) { assert DropsByRange(store[j].key, meta, kinds, singles); }
      }
    }
  }

  lemma SwallowedIsNotOwn(k: RecKey, meta: RecKey, kinds: seq<Byte>, singles: set<RecKey>, n: nat)
    requires n < |kinds| && Swallowed(k, Family(meta, kinds[n])) && forall s | s in singles :: s.kind !in kinds
    ensures !IsOwn(k, meta, kinds, singles)
  {
    InsideBytes(k, Family(meta, kinds[n]));
    assert kinds[n] in kinds;
  }

  /** Where deleting by range is exact, so is deleting record by record. */
  lemma RangeIsTheStricter(store: seq<Rec>, meta: RecKey, kinds: seq<Byte>, singles: set<RecKey>)
    requires Sorted(store) && Encoded(store) && AllProper(store) && Proper(meta)
    requires forall k | k in singles :: k.kind !in kinds
    requires RangeIsExact(store, meta, kinds, singles)
    ensures CursorIsExact(store, meta, kinds, singles)
  {
    RangeExactlyIfAlone(store, meta, kinds, singles);
    forall n | 0 <= n < |kinds| ensures Undisturbed(store, Family(meta, kinds[n])) {
      AloneIsUndisturbed(store, Family(meta, kinds[n]));
    }
    CursorExactlyIfUndisturbed(store, meta, kinds, singles);
  }

  lemma AloneIsUndisturbed(store: seq<Rec>, m: RecKey)
    requires Sorted(store) && Encoded(store) && AllProper(store) && Proper(m)
    requires forall j: nat | j < |store| :: !Swallowed(store[j].key, m)
    ensures Undisturbed(store, m)
  {
    UndisturbedExactlyIfNoneAmong(store, m);
    forall i, j | 0 <= i < |store| && 0 <= j < |store| ensures !Among(store[i].key, store[j].key, m) {
      if Among(store[i].key, store[j].key, m) { AmongIsSwallowed(store[i].key, store[j].key, m); }
    }
  }

  /** With primary keys free of zero bytes both paths delete exactly the key's own records. */
  lemma BothPathsAreExact(store: seq<Rec>, meta: RecKey, kinds: seq<Byte>, singles: set<RecKey>)
    requires Sorted(store) && Encoded(store) && AllProper(store) && Proper(meta) && NulFree(meta.pk)
    requires forall kind | kind in kinds :: AllNulFree(store, kind)
    requires forall k | k in singles :: k.kind !in kinds
    ensures CursorIsExact(store, meta, kinds, singles) && RangeIsExact(store, meta, kinds, singles)
  {
    forall n | 0 <= n < |kinds| ensures Undisturbed(store, Family(meta, kinds[n])) {
      NulFreeIsUndisturbed(store, Family(meta, kinds[n]));
    }
    CursorExactlyIfUndisturbed(store, meta, kinds, singles);
    forall j: nat, n | j < |store| && 0 <= n < |kinds| ensures !Swallowed(store[j].key, Family(meta, kinds[n])) {
      NulFreeIsNotInside(store[j].key, Family(meta, kinds[n]));
    }
    RangeExactlyIfAlone(store, meta, kinds, singles);
  }

  datatype KeyType = Hash | List | Set | Zset | Bitmap

  /** The characters of the element types; a sorted set is stored by score and by member. */
  function Families(t: KeyType): seq<Byte>
  {
    match t
    case Hash => ['h' as int]
    case List => ['l' as int]
    case Set => ['s' as int]
    case Zset => ['z' as int, 'c' as int]
    case Bitmap => ['t' as int]
  }

  const META_KIND: Byte := 'D' as int
  const TTL_INDEX_KIND: Byte := 254

  /** Both paths remove the record, or neither does; they remove it exactly if it belongs to the key. */
  ghost predicate RemovedAlike(store: seq<Rec>, meta: RecKey, kinds: seq<Byte>, singles: set<RecKey>)
  {
    forall j: nat | j < |store| ::
      && (store[j].key in Pending(store, meta, kinds, singles) <==> DropsByRange(store[j].key, meta, kinds, singles))
      && (DropsByRange(store[j].key, meta, kinds, singles) <==> IsOwn(store[j].key, meta, kinds, singles))
  }

  lemma ExactIsAlike(store: seq<Rec>, meta: RecKey, kinds: seq<Byte>, singles: set<RecKey>)
    requires Sorted(store) && Encoded(store) && AllProper(store) && Proper(meta) && NulFree(meta.pk)
    requires forall kind | kind in kinds :: AllNulFree(store, kind)
    requires forall k | k in singles :: k.kind !in kinds
    ensures RemovedAlike(store, meta, kinds, singles)
  {
    BothPathsAreExact(store, meta, kinds, singles);
  }

  lemma SinglesAreNoElements(t: KeyType)
    ensures META_KIND !in Families(t) && TTL_INDEX_KIND !in Families(t)
  {
  }

  /** Deleting a whole key, with its meta record and TTL index entry, removes the same records either way. */
  lemma EitherWayTheSame(store: seq<Rec>, meta: RecKey, t: KeyType, index: RecKey)
    requires Sorted(store) && Encoded(store) && AllProper(store) && Proper(meta) && NulFree(meta.pk)
    requires forall kind | kind in Families(t) :: AllNulFree(store, kind)
    requires meta.kind == META_KIND && index.kind == TTL_INDEX_KIND
    ensures RemovedAlike(store, meta, Families(t), {meta, index})
  {
    SinglesAreNoElements(t);
    ExactIsAlike(store, meta, Families(t), {meta, index});
  }

  /** All pages together hold every element of the key exactly if nothing sorts among them. */
  lemma PagesCompleteExactlyIfUndisturbed(store: seq<Rec>, m: RecKey, cnt: nat)
    requires Sorted(store) && Encoded(store) && cnt > 0
    ensures (forall j: nat | j < |store| ::
               store[j].key in Keys(AllPages(store, m, Start(store, m), cnt)) <==> SameKey(store[j].key, m))
            <==> Undisturbed(store, m)
  {
    PagesAreTheStretch(store, m, Start(store, m), cnt);
    forall j: nat | j < |store| ensures store[j].key in Keys(Stretch(store, m)) <==> InStretch(store, m, j) {
      InStretchExactly(store, m, j);
    }
    SeesAllExactlyIfUndisturbed(store, m);
  }

  // ---------------------------------------------------------------- zero bytes in primary keys

  /** An element of some key with subkey 1, and one of the key with a zero byte behind it. */
  function Mine(pk: Buf, kind: Byte, db: nat, crc16: Buf -> nat): RecKey
  {
    RecKey(Slot(pk, crc16), kind, db, pk, [1])
  }

  function Other(pk: Buf, kind: Byte, db: nat, crc16: Buf -> nat): RecKey
  {
    RecKey(Slot(pk + [0], crc16), kind, db, pk + [0], [])
  }

  lemma SlotIsProper(k: RecKey)
    requires k.chunk < 16384 && k.db < Pow256(4)
    ensures Proper(k)
  {
    assert Pow256(4) == 0x1_0000_0000;
  }

  lemma OtherIsAmong(k: RecKey, own: RecKey, m: RecKey)
    requires SameHead(k, m) && k.pk == m.pk + [0] && k.sk == [] && own.sk == [1]
    ensures Among(k, own, m) && Swallowed(k, m)
  {
    assert k.pk[..|m.pk| + 1] == m.pk + [0] && k.pk[|m.pk| + 1..] == [];
    var a, b := Reverse(Varint(|k.pk|)) + [0], Reverse(Varint(|own.pk|)) + [0];
    assert Rest(k, m) == [0] + ([0] + a);
    assert Tail(own) == [0] + ([1] + b);
    CommonStart([0], [0] + a, [1] + b);
    AmongIsSwallowed(k, own, m);
  }

  /**
   Deleting a key when the same key with a zero byte behind it exists in the same slot: record by record, the walk
   stops at the other key's record and the element stays; by range, the other key's element goes too.
   */
  lemma ZeroByteKeysAreConfused(pk: Buf, kind: Byte, db: nat, crc16: Buf -> nat)
    requires Slot(pk + [0], crc16) == Slot(pk, crc16) && kind != META_KIND && db < Pow256(4)
    ensures var mine, other := Mine(pk, kind, db, crc16), Other(pk, kind, db, crc16);
            var meta := mine.(kind := META_KIND, sk := []);
            var store := [Rec(other, Encode(other), []), Rec(mine, Encode(mine), [])];
            && Sorted(store) && Encoded(store) && !SameKey(other, mine)
            && IsOwn(mine, meta, [kind], {meta}) && mine !in Pending(store, meta, [kind], {meta})
            && !IsOwn(other, meta, [kind], {meta}) && DropsByRange(other, meta, [kind], {meta})
  {
    var mine, other := Mine(pk, kind, db, crc16), Other(pk, kind, db, crc16);
    var meta := mine.(kind := META_KIND, sk := []);
    TwoRecords(mine, other, meta, kind, Family(meta, kind));
  }

  lemma TwoRecords(mine: RecKey, other: RecKey, meta: RecKey, kind: Byte, m: RecKey)
    requires m == Family(meta, kind) && SameKey(mine, m) && kind != meta.kind && m.chunk < 16384 && m.db < Pow256(4)
    requires SameHead(other, m) && other.pk == m.pk + [0] && other.sk == [] && mine.sk == [1]
    ensures var store := [Rec(other, Encode(other), []), Rec(mine, Encode(mine), [])];
            && Sorted(store) && Encoded(store) && !SameKey(other, mine)
            && IsOwn(mine, meta, [kind], {meta}) && mine !in Pending(store, meta, [kind], {meta})
            && !IsOwn(other, meta, [kind], {meta}) && DropsByRange(other, meta, [kind], {meta})
  {
    var store := [Rec(other, Encode(other), []), Rec(mine, Encode(mine), [])];
    OtherIsAmong(other, mine, m);
    SlotIsProper(other);
    SlotIsProper(m);
    AmongExactly(other, mine, m);
    InRangeExactly(other, m);
    assert [kind][0] == kind && [kind][..0] == [];
    assert SameKey(mine, Family(meta, [kind][0]));
    assert Start(store, m) == 0;
    assert StretchEnd(store, m, 0) == 0;
    assert Stretch(store, m) == [];
    assert InRange(other, Family(meta, [kind][0]));
  }

  const TAGGED_KEY: Buf := ['{' as int, 'a' as int, '}' as int]

  /** Such pairs exist whatever the hash is: a key with a tag, here "{a}". */
  lemma ConfusedPairsExist(crc16: Buf -> nat)
    ensures Tagged(TAGGED_KEY) && Slot(TAGGED_KEY + [0], crc16) == Slot(TAGGED_KEY, crc16)
  {
    assert TagStart(TAGGED_KEY) == 0;
    assert Find(TAGGED_KEY, '}' as int, 1) == 2 by { assert Find(TAGGED_KEY, '}' as int, 2) == 2; }
    TaggedKeepsSlot(TAGGED_KEY, [0], crc16);
  }
}
