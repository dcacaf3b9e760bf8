/**
 A ziplist that is not in step is never read back. From the first entry out of step the reader is four bytes
 behind the writer. To read the right strings from there, each of them would have to be one certain string; and
 then the reader stays four bytes behind, and never finds the end mark in its place.
 */
module ZiplistDrift {
  import opened Names
  import opened Bytes
  import opened Rdb
  import opened Ziplists

  /** The strings are read back, and the end mark stands behind them. */
  ghost predicate ReadsBack(b: Buf, zl: seq<Buf>, prevSize: nat)
  {
    var r := LoadEntries(b, |zl|, prevSize);
    r.Some? && r.value.0 == zl && r.value.1 != [] && r.value.1[0] == 0xff
  }

  lemma ReadsBackStep(b: Buf, zl: seq<Buf>, prevSize: nat)
    requires zl != []
    ensures var e := LoadEntry(b, prevSize);
            ReadsBack(b, zl, prevSize) <==> e.Some? && e.value.0 == zl[0] && ReadsBack(e.value.1, zl[1..], |zl[0]|)
  {
    var e := LoadEntry(b, prevSize);
    HeadAndTail(zl);
    if e.Some? && e.value.0 == zl[0] {
      var more := LoadEntries(e.value.1, |zl| - 1, |e.value.0|);
      if more.Some? { assert ([e.value.0] + more.value.0)[1..] == more.value.0; }
    } else if e.Some? {
      var more := LoadEntries(e.value.1, |zl| - 1, |e.value.0|);
      if more.Some? { assert ([e.value.0] + more.value.0)[0] != zl[0]; }
    }
  }

  /** The entries and the end mark, without the first previous length, which took `width` bytes. */
  function Tail(width: nat, zl: seq<Buf>): Buf
    requires zl != []
  {
    SaveString(zl[0]) + Onward(width, zl)
  }

  function Onward(width: nat, zl: seq<Buf>): Buf
    requires zl != []
  {
    Entries(width + |SaveString(zl[0])|, zl[1..]) + [0xff]
  }

  lemma EntriesAreTail(p: nat, zl: seq<Buf>)
    requires zl != []
    ensures Entries(p, zl) + [0xff] == PrevLen(p) + Tail(|PrevLen(p)|, zl)
  {
    EntriesSplit(p, zl, [0xff]);
    EntryLength(p, zl[0]);
    TailBehind(|PrevLen(p)|, |Entry(p, zl[0])|, zl);
    Regroup(PrevLen(p), SaveString(zl[0]), Onward(|PrevLen(p)|, zl));
  }

  lemma EntryLength(p: nat, s: Buf)
    ensures |Entry(p, s)| == |PrevLen(p)| + |SaveString(s)|
  {
  }

  lemma TailBehind(width: nat, n: nat, zl: seq<Buf>)
    requires zl != [] && n == width + |SaveString(zl[0])|
    ensures Entries(n, zl[1..]) + [0xff] == Onward(width, zl)
  {
  }

  /** The reader is about to read the first string at `b`. */
  ghost predicate ReadsOn(b: Buf, zl: seq<Buf>)
    requires zl != []
  {
    var v := LoadValue(b);
    v.Some? && v.value.0 == zl[0] && ReadsBack(v.value.1, zl[1..], |zl[0]|)
  }

  /**
   A reader that is four bytes behind the writer has four bytes `u` before it and then a string written
   behind a previous length of `width` bytes. What it reads must be that string, so the string repeats the
   four bytes; what is left are the four bytes again, in another order, and then the size just written.
   These are the places that can be reached from an entry out of step.
   */
  predicate Adrift(u: Buf, width: nat)
  {
    |u| == 4 && (forall i | 0 <= i < 4 :: u[i] < 255) && Place(u[0], u[1], u[2], u[3], width)
  }

  predicate Place(a: int, b: int, c: int, d: int, width: nat)
  {
    if width == 5 then (0 <= a <= 4 || a == 60) && b == 1 && c == d == 0
    else width == 1 && (Swinging(a, b, c, d) || Resting(a, b, c, d) || Climbing(a, b, c, d))
  }

  /** An empty string and one of a multiple of four bytes take turns. */
  predicate Swinging(a: int, b: int, c: int, d: int)
  {
    (a == 0 && 0 <= c < 64 && c % 4 == 0) || (0 <= a < 64 && a % 4 == 0 && c == 0 && d == 2)
  }

  /** Strings of two bytes, and the way to them. */
  predicate Resting(a: int, b: int, c: int, d: int)
  {
    (a == 2 && b == 1) || (a == 0 && b == c == 1 && d == 7) || (a == 1 && b == 7 && c == 0 && d == 2)
  }

  /** Six places in turn, every time round with strings that are four bytes longer. */
  predicate Climbing(a: int, b: int, c: int, d: int)
  {
    || (a == b + 6 && Rung(b, 57))
    || (d == a + 8 && Rung(a, 57))
    || (a == b + 8 && d == b + 2 && Rung(b, 57))
    || (a == c + 2 && b == c + 8 && d == c + 10 && Rung(c, 53))
    || (a == b + 8 && c == b + 10 && d == b + 4 && Rung(b, 53))
    || (a == c + 4 && b == c + 8 && d == c + 10 && Rung(c, 53))
  }

  predicate Rung(x: int, top: int)
  {
    1 <= x <= top && x % 4 == 1
  }

  /** What is left of four bytes, the first `head` of them a length `n`, once a string of `n` bytes is read. */
  function Left(u: Buf, head: nat, n: nat): (r: Buf)
    requires |u| == 4 && head <= 4
    ensures |r| == 4
  {
    var q := u[head..] + u[..head];
    [q[n % 4], q[(n + 1) % 4], q[(n + 2) % 4], q[(n + 3) % 4]]
  }

  lemma {:induction false} Periodic(s: Buf, j: nat)
    requires j < |s| && forall i | 0 <= i < |s| - 4 :: s[i + 4] == s[i]
    ensures s[j] == s[j % 4]
  {
    if j >= 4 { Periodic(s, j - 4); }
  }

  lemma SliceOfThree(q: Buf, t: Buf, w: Buf, n: nat)
    requires |q| == 4 && n == |t| && (q + t + w)[..n] == t
    ensures (q + t + w)[n..] == (q + t)[n..] + w
    ensures forall i | 0 <= i < n :: (q + t)[i + 4] == (q + t)[i]
  {
    var s := q + t;
    forall i | 0 <= i < n ensures s[i + 4] == s[i] {
      assert s[i + 4] == t[i] == (s + w)[..n][i] == s[i];
    }
  }

  lemma Repeats(q: Buf, t: Buf, w: Buf)
    requires |q| == 4 && (q + t + w)[..|t|] == t
    ensures var n := |t|; (q + t + w)[n..] == [q[n % 4], q[(n + 1) % 4], q[(n + 2) % 4], q[(n + 3) % 4]] + w
  {
    var n, s := |t|, q + t;
    SliceOfThree(q, t, w, n);
    Periodic(s, n);
    Periodic(s, n + 1);
    Periodic(s, n + 2);
    Periodic(s, n + 3);
    assert s[n..] == [s[n], s[n + 1], s[n + 2], s[n + 3]];
  }

  /** The string that is read must be the one that was written, which settles what is left. */
  lemma Slip(u: Buf, head: nat, n: nat, t: Buf, w: Buf)
    requires |u| == 4 && head <= 4 && SaveLen(n) == u[..head]
    requires var b := u + (SaveString(t) + w);
             && LoadLen(b) == Some(Len(n, false, b[head..])) && b[0] < 0x80
             && LoadString(b).Some? && LoadString(b).value.0 == t && LoadString(b).value.1 != []
    ensures |t| == n && LoadString(u + (SaveString(t) + w)).value.1 == Left(u, head, n) + w
  {
    var b := u + (SaveString(t) + w);
    var q := u[head..] + u[..head];
    assert |t| == n;
    Shifted(u, head, t, w);
    Repeats(q, t, w);
  }

  lemma Shifted(u: Buf, head: nat, t: Buf, w: Buf)
    requires |u| == 4 && head <= 4 && SaveLen(|t|) == u[..head]
    ensures (u + (SaveString(t) + w))[head..] == u[head..] + u[..head] + t + w
  {
  }

  // ---------------------------------------------------------------- from place to place

  lemma OneByteLen(u: Buf, rest: Buf)
    requires u != [] && u[0] < 64
    ensures SaveLen(u[0]) == u[..1] && LoadLen(u + rest) == Some(Len(u[0], false, (u + rest)[1..]))
  {
  }

  lemma TwoByteLen(u: Buf, rest: Buf)
    requires |u| >= 2 && u[0] == 65 && u[1] == 57
    ensures SaveLen(313) == u[..2] && LoadLen(u + rest) == Some(Len(313, false, (u + rest)[2..]))
  {
  }

  /** The places that follow each other, by the remainder of the length that is read. */
  lemma NextPlace(a: int, b: int, c: int, d: int, width: nat)
    requires Place(a, b, c, d, width) && a < 64
    ensures var p := width + 1 + a;
            && p < 254
            && (a % 4 == 0 ==> Place(c, d, a, p, 1))
            && (a % 4 == 1 ==> Place(d, a, b, p, 1))
            && (a % 4 == 2 ==> Place(a, b, c, p, 1))
            && (a % 4 == 3 ==> Place(b, c, d, p, 1))
  {
  }

  lemma LeftBytes(u: Buf)
    requires |u| == 4
    ensures var a, b, c, d := u[0], u[1], u[2], u[3];
            Left(u, 1, a) == if a % 4 == 0 then [b, c, d, a] else if a % 4 == 1 then [c, d, a, b]
                             else if a % 4 == 2 then [d, a, b, c] else [a, b, c, d]
  {
    assert u[1..] + u[..1] == [u[1], u[2], u[3], u[0]];
  }

  /** A length of one byte: the reader stays four bytes behind, at the next place. */
  lemma DriftsOn(u: Buf, width: nat)
    requires Adrift(u, width) && u[0] < 64
    ensures width + 1 + u[0] < 254 && Left(u, 1, u[0])[0] != 0xff
    ensures Adrift(Left(u, 1, u[0])[1..] + [width + 1 + u[0]], 1)
  {
    NextPlace(u[0], u[1], u[2], u[3], width);
    LeftBytes(u);
  }

  lemma TopRung(u: Buf, width: nat)
    requires Adrift(u, width) && u[0] >= 64
    ensures width == 1 && u[0] == 65 && u[1] == 57 && u[3] == 59
  {
  }

  /** What reading a string leads to: four bytes that do not start with an end mark, and another place. */
  ghost predicate LeadsOn(r: Buf, size: nat, t: Buf)
  {
    && |r| == 4 && r[0] != 0xff && size < 65536 && (size >= 254 <==> |t| >= 254)
    && Adrift(Next(r, size), |PrevLen(size)|)
  }

  /** The four bytes after the next previous length, which the reader passes over in full if it is a long one. */
  function Next(r: Buf, size: nat): Buf
    requires |r| == 4 && size < 65536
  {
    if size >= 254 then Start(size) else r[1..] + [size]
  }

  /** The first string at `b` is read, and something is left. */
  ghost predicate ReadsOne(b: Buf, t: Buf)
  {
    var v := LoadValue(b);
    v.Some? && v.value.0 == t && v.value.1 != []
  }

  lemma SmallStep(u: Buf, width: nat, zl: seq<Buf>)
    requires zl != [] && Adrift(u, width) && u[0] < 64 && ReadsOne(u + Tail(width, zl), zl[0])
    ensures LeadsOn(Left(u, 1, u[0]), width + |SaveString(zl[0])|, zl[0])
    ensures LoadValue(u + Tail(width, zl)).value.1 == Left(u, 1, u[0]) + Onward(width, zl)
  {
    OneByteLen(u, Tail(width, zl));
    Slip(u, 1, u[0], zl[0], Onward(width, zl));
    DriftsOn(u, width);
  }

  lemma NothingIsNotRead(zl: seq<Buf>, prevSize: nat)
    ensures !ReadsBack([], zl, prevSize)
  {
  }

  /** At the top a string of 313 bytes leads down again. */
  lemma LargeStep(u: Buf, width: nat, zl: seq<Buf>)
    requires zl != [] && Adrift(u, width) && u[0] >= 64 && ReadsOne(u + Tail(width, zl), zl[0])
    ensures LeadsOn(Left(u, 2, 313), width + |SaveString(zl[0])|, zl[0])
    ensures LoadValue(u + Tail(width, zl)).value.1 == Left(u, 2, 313) + Onward(width, zl)
  {
    TopRung(u, width);
    TwoByteLen(u, Tail(width, zl));
    Slip(u, 2, 313, zl[0], Onward(width, zl));
    assert u[2..] + u[..2] == [u[2], u[3], u[0], u[1]];
  }

  lemma FourBytes(n: nat)
    requires 254 <= n < 65536
    ensures PrevLen(n) == [0xfe, n % 256, n / 256, 0, 0]
  {
    assert Le(0, 2) == [0, 0] by { assert Le(0, 1) == [0]; }
    assert Le(n / 256, 3) == [n / 256] + Le(0, 2);
  }

  lemma Pass(r: Buf, size: nat, tail: Buf)
    requires |r| == 4 && size < 65536
    ensures (r + (PrevLen(size) + tail))[if size >= 254 then 5 else 1..] == Next(r, size) + tail
  {
    if size >= 254 { FourBytes(size); }
  }

  lemma ArrivesAt(r: Buf, size: nat, t: Buf, zl: seq<Buf>)
    requires zl != [] && LeadsOn(r, size, t)
    ensures ReadsBack(r + (Entries(size, zl) + [0xff]), zl, |t|) <==> ReadsOn(Next(r, size) + Tail(|PrevLen(size)|, zl), zl)
  {
    EntriesAreTail(size, zl);
    ReadsBackStep(r + (Entries(size, zl) + [0xff]), zl, |t|);
    Pass(r, size, Tail(|PrevLen(size)|, zl));
  }

  lemma {:induction false} NoWayBack(r: Buf, width: nat, zl: seq<Buf>)
    requires zl != [] && LeadsOn(r, width + |SaveString(zl[0])|, zl[0])
    ensures !ReadsBack(r + Onward(width, zl), zl[1..], |zl[0]|)
    decreases |zl|, 0
  {
    var size := width + |SaveString(zl[0])|;
    if |zl| > 1 {
      ArrivesAt(r, size, zl[0], zl[1..]);
      NeverBack(Next(r, size), |PrevLen(size)|, zl[1..]);
    }
  }

  /** From none of the places the rest is read back. */
  lemma {:induction false} NeverBack(u: Buf, width: nat, zl: seq<Buf>)
    requires zl != [] && Adrift(u, width)
    ensures !ReadsOn(u + Tail(width, zl), zl)
    decreases |zl|, 1
  {
    NothingIsNotRead(zl[1..], |zl[0]|);
    if ReadsOne(u + Tail(width, zl), zl[0]) {
      if u[0] < 64 {
        SmallStep(u, width, zl);
        NoWayBack(Left(u, 1, u[0]), width, zl);
      } else {
        LargeStep(u, width, zl);
        NoWayBack(Left(u, 2, 313), width, zl);
      }
    }
  }

  // ---------------------------------------------------------------- the first entry out of step

  /** The byte 254 announces a small integer, here zero. */
  lemma ReadsZero(b: Buf)
    ensures LoadValue([254, 0, 0, 0] + b) == Some((['0' as int], [0, 0] + b))
  {
    var c := [254, 0, 0, 0] + b;
    assert c[1..][..1] == [0] && c[1..][1..] == [0, 0] + b;
    assert FromLe([0]) == 0 by { assert [0][1..] == []; }
    assert Signed(0, 1) == 0 && Decimal(0) == ['0' as int];
  }

  lemma ZeroLeadsOn(u: Buf, zl: seq<Buf>)
    requires zl != [] && u == [254, 0, 0, 0]
    ensures !ReadsOn(u + Tail(5, zl), zl)
  {
    ReadsZero(Tail(5, zl));
    if zl[0] == ['0' as int] {
      assert SaveString(zl[0]) == [1, '0' as int];
      var r: Buf := [0, 0, 1, '0' as int];
      assert [0, 0] + Tail(5, zl) == r + Onward(5, zl);
      assert Next(r, 7) == [0, 1, '0' as int, 7];
      NoWayBack(r, 5, zl);
    }
  }

  /** 255 announces nothing at all. */
  lemma NoSuchInteger(u: Buf, zl: seq<Buf>)
    requires zl != [] && u == [255, 0, 0, 0]
    ensures !ReadsOn(u + Tail(5, zl), zl)
  {
  }

  lemma FirstSlip(n: nat, u: Buf, zl: seq<Buf>)
    requires zl != [] && 254 <= n <= 260 && u == Start(n)
    ensures !ReadsOn(u + Tail(5, zl), zl)
  {
    if n == 254 {
      ZeroLeadsOn(u, zl);
    } else if n == 255 {
      NoSuchInteger(u, zl);
    } else {
      NeverBack(u, 5, zl);
    }
  }

  /** What the reader takes for a string when it passes over one byte of a long previous length. */
  function Start(n: nat): Buf
    requires n < 65536
  {
    [n % 256, n / 256, 0, 0]
  }

  lemma ShortPass(n: nat, tail: Buf)
    requires 254 <= n < 65536
    ensures (PrevLen(n) + tail)[1..] == Start(n) + tail
  {
    FourBytes(n);
  }

  lemma SlipsAway(n: nat, prevSize: nat, zl: seq<Buf>)
    requires zl != [] && 254 <= n <= 260 && prevSize < 254
    ensures !ReadsBack(Entries(n, zl) + [0xff], zl, prevSize)
  {
    EntriesAreTail(n, zl);
    ShortPass(n, Tail(5, zl));
    ReadsBackStep(Entries(n, zl) + [0xff], zl, prevSize);
    FirstSlip(n, Start(n), zl);
  }

  /** Entries are read back, with the end mark behind them, exactly if they are in step. */
  lemma {:induction false} BackExactlyIfInStep(p: nat, prevSize: nat, zl: seq<Buf>)
    requires Short(zl) && (p >= 254 <==> prevSize >= 254)
    ensures ReadsBack(Entries(p, zl) + [0xff], zl, prevSize) <==> InStep(p, zl)
    decreases |zl|
  {
    if InStep(p, zl) {
      EntriesRoundTrip(p, prevSize, zl, [0xff]);
    } else {
      var n := |Entry(p, zl[0])|;
      EntrySize(p, zl[0]);
      ShortFits(zl[0]);
      EntriesSplit(p, zl, [0xff]);
      var later := Entries(n, zl[1..]) + [0xff];
      EntryRoundTrip(p, prevSize, zl[0], later);
      ReadsBackStep(Entries(p, zl) + [0xff], zl, prevSize);
      if n >= 254 <==> |zl[0]| >= 254 {
        BackExactlyIfInStep(n, |zl[0]|, zl[1..]);
      } else {
        SlipsAway(n, |zl[0]|, zl[1..]);
      }
    }
  }
}
