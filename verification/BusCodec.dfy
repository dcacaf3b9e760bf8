/** Slot bitmaps as the bus sends them: the length in bytes, then the start and length of every run. */
module BitsetCodec {
  import opened Names
  import opened Bytes
  import opened ClusterView

  /** The first slot from `j` on that is not set. */
  function RunEnd(bits: set<nat>, j: nat): (e: nat)
    requires j <= SLOTS
    ensures j <= e <= SLOTS && (forall k | j <= k < e :: k in bits) && (e < SLOTS ==> e !in bits)
    decreases SLOTS - j
  {
    if j == SLOTS || j !in bits then j else RunEnd(bits, j + 1)
  }

  function RunVec(bits: set<nat>, j: nat): seq<nat>
    requires j <= SLOTS
    decreases SLOTS - j
  {
    if j == SLOTS then []
    else if j !in bits then RunVec(bits, j + 1)
    else
      var e := RunEnd(bits, j + 1);
      [j, e - j] + RunVec(bits, e)
  }

  predicate Within(pos: nat, len: nat, j: nat)
  {
    pos <= j < pos + len
  }

  function Stretch(pos: nat, len: nat): set<nat>
  {
    set j | 0 <= j < pos + len && Within(pos, len, j)
  }

  /** The set bits; runs must be ascending and stay inside the bitmap. `last` is the last bit set so far. */
  function DecodeVec(vec: seq<nat>, last: int): Option<set<nat>>
    decreases |vec|
  {
    if vec == [] then Some({})
    else if |vec| == 1 || vec[0] <= last || vec[0] + vec[1] > SLOTS then None
    else
      var rest := DecodeVec(vec[2..], if vec[1] > 0 then vec[0] + vec[1] - 1 else last);
      if rest.None? then None else Some(Stretch(vec[0], vec[1]) + rest.value)
  }

  function From(bits: set<nat>, j: nat): set<nat>
  {
    set k | k in bits && j <= k < SLOTS
  }

  lemma {:induction false} RunsRoundTrip(bits: set<nat>, j: nat, last: int)
    requires j <= SLOTS && last < j
    ensures DecodeVec(RunVec(bits, j), last) == Some(From(bits, j))
    decreases SLOTS - j
  {
    if j == SLOTS {
      assert From(bits, j) == {};
    } else if j !in bits {
      assert From(bits, j) == From(bits, j + 1);
      RunsRoundTrip(bits, j + 1, last);
    } else {
      var e := RunEnd(bits, j + 1);
      RunsRoundTrip(bits, e, e - 1);
      assert ([j, e - j] + RunVec(bits, e))[2..] == RunVec(bits, e);
      assert From(bits, j) == Stretch(j, e - j) + From(bits, e);
    }
  }

  lemma {:induction false} RunsAreSmall(bits: set<nat>, j: nat)
    requires j <= SLOTS
    ensures |RunVec(bits, j)| <= 2 * (SLOTS - j)
    ensures forall i | 0 <= i < |RunVec(bits, j)| :: RunVec(bits, j)[i] <= SLOTS
    decreases SLOTS - j
  {
    if j < SLOTS { RunsAreSmall(bits, if j in bits then RunEnd(bits, j + 1) else j + 1); }
  }

  /** The loops of the source, over the bits and over the numbers. */
  method BitsetEncodeVec(bits: set<nat>) returns (vec: seq<nat>)
    ensures vec == RunVec(bits, 0)
  {
    vec := [];
    var idx := 0;
    while idx < SLOTS
      invariant idx <= SLOTS && vec + RunVec(bits, idx) == RunVec(bits, 0)
    {
      if idx in bits {
        ghost var was, start := vec, idx;
        var pageLen := 0;
        vec := vec + [idx];
        while idx < SLOTS && idx in bits
          invariant start <= idx <= SLOTS && pageLen == idx - start
          invariant idx == start || RunEnd(bits, start + 1) == RunEnd(bits, idx)
        {
          pageLen := pageLen + 1;
          idx := idx + 1;
        }
        vec := vec + [pageLen];
        assert was + ([start, pageLen] + RunVec(bits, idx)) == vec + RunVec(bits, idx);
      } else {
        idx := idx + 1;
      }
    }
    assert vec + [] == vec;
  }

  function Words(vec: seq<nat>): Buf
  {
    if vec == [] then [] else Be(vec[0], 2) + Words(vec[1..])
  }

  function ReadWords(b: Buf): seq<nat>
  {
    if |b| < 2 then [] else [FromBe(b[..2])] + ReadWords(b[2..])
  }

  lemma {:induction false} WordsRoundTrip(vec: seq<nat>)
    requires forall i | 0 <= i < |vec| :: vec[i] < 65536
    ensures |Words(vec)| == 2 * |vec| && ReadWords(Words(vec)) == vec
    decreases |vec|
  {
    if vec != [] {
      WordsRoundTrip(vec[1..]);
      assert Pow256(2) == 65536;
      BeRoundTrip(vec[0], 2);
      assert Words(vec)[..2] == Be(vec[0], 2) && Words(vec)[2..] == Words(vec[1..]);
      assert vec == [vec[0]] + vec[1..];
    }
  }

  function BitsetEncode(bits: set<nat>): Buf
  {
    Be(4 + 2 * |RunVec(bits, 0)|, 4) + Words(RunVec(bits, 0))
  }

  function BitsetEncodeSize(bits: set<nat>): nat
  {
    4 + 2 * |RunVec(bits, 0)|
  }

  /** Reads a bitmap from the front of `b`. */
  function BitsetDecode(b: Buf): Option<set<nat>>
  {
    if |b| < 4 || |b| < FromBe(b[..4]) || FromBe(b[..4]) < 4 then None
    else DecodeVec(ReadWords(b[4..FromBe(b[..4])]), -1)
  }

  lemma BitsetRoundTrip(bits: set<nat>, rest: Buf)
    requires forall j | j in bits :: j < SLOTS
    ensures |BitsetEncode(bits)| == BitsetEncodeSize(bits)
    ensures BitsetDecode(BitsetEncode(bits) + rest) == Some(bits)
  {
    var vec := RunVec(bits, 0);
    RunsAreSmall(bits, 0);
    WordsRoundTrip(vec);
    FourBytes(4 + 2 * |vec|);
    RunsRoundTrip(bits, 0, -1);
    assert From(bits, 0) == bits;
    DecodeFront(Be(4 + 2 * |vec|, 4), Words(vec), rest, bits);
  }

  lemma DecodeFront(size: Buf, words: Buf, rest: Buf, bits: set<nat>)
    requires |size| == 4 && FromBe(size) == 4 + |words| && DecodeVec(ReadWords(words), -1) == Some(bits)
    ensures BitsetDecode(size + words + rest) == Some(bits)
  {
    FrontOf(size, words, rest);
  }

  lemma FourBytes(n: nat)
    requires n < 0x1_0000_0000
    ensures FromBe(Be(n, 4)) == n
  {
    assert Pow256(4) == 0x1_0000_0000;
    BeRoundTrip(n, 4);
  }

  lemma FrontOf(size: Buf, words: Buf, rest: Buf)
    requires |size| == 4
    ensures var b := size + words + rest; b[..4] == size && b[4..4 + |words|] == words && |b| >= 4 + |words|
  {
  }
}

/** Fixed-width fields, and strings behind a variable-length count. */
module WireFields {
  import opened Names
  import opened Bytes

  /** A number of some width, or bytes whose number is known in advance. */
  datatype Field = Num(n: nat, width: nat) | Raw(bytes: Buf)

  datatype Shape = NumOf(width: nat) | RawOf(size: nat)

  function Size(sh: Shape): nat
  {
    match sh
    case NumOf(w) => w
    case RawOf(k) => k
  }

  ghost predicate Fits(f: Field, sh: Shape)
  {
    match sh
    case NumOf(w) => f.Num? && f.width == w && f.n < Pow256(w)
    case RawOf(k) => f.Raw? && |f.bytes| == k
  }

  ghost predicate AllFit(fs: seq<Field>, shs: seq<Shape>)
  {
    |fs| == |shs| && forall i | 0 <= i < |fs| :: Fits(fs[i], shs[i])
  }

  function EncodeField(f: Field): Buf
  {
    match f
    case Num(n, w) => Be(n, w)
    case Raw(b) => b
  }

  function EncodeFields(fs: seq<Field>): Buf
  {
    if fs == [] then [] else EncodeField(fs[0]) + EncodeFields(fs[1..])
  }

  function SizeOf(shs: seq<Shape>): nat
  {
    if shs == [] then 0 else Size(shs[0]) + SizeOf(shs[1..])
  }

  function DecodeField(sh: Shape, b: Buf): Field
    requires |b| == Size(sh)
  {
    match sh
    case NumOf(w) => Num(FromBe(b), w)
    case RawOf(k) => Raw(b)
  }

  /** The fields at the front of `b`, and what follows them. */
  function DecodeFields(shs: seq<Shape>, b: Buf): Option<(seq<Field>, Buf)>
  {
    if shs == [] then Some(([], b))
    else if |b| < Size(shs[0]) then None
    else
      var f := DecodeField(shs[0], b[..Size(shs[0])]);
      var more := DecodeFields(shs[1..], b[Size(shs[0])..]);
      if more.None? then None else Some(([f] + more.value.0, more.value.1))
  }

  lemma FieldRoundTrip(f: Field, sh: Shape)
    requires Fits(f, sh)
    ensures |EncodeField(f)| == Size(sh) && DecodeField(sh, EncodeField(f)) == f
  {
    if sh.NumOf? { BeRoundTrip(f.n, sh.width); }
  }

  lemma {:induction false} FieldsRoundTrip(fs: seq<Field>, shs: seq<Shape>, rest: Buf)
    requires AllFit(fs, shs)
    ensures |EncodeFields(fs)| == SizeOf(shs)
    ensures DecodeFields(shs, EncodeFields(fs) + rest) == Some((fs, rest))
    decreases |fs|
  {
    if fs == [] {
      assert EncodeFields(fs) + rest == rest;
    } else {
      var a, later := EncodeField(fs[0]), EncodeFields(fs[1..]) + rest;
      FieldRoundTrip(fs[0], shs[0]);
      FieldsRoundTrip(fs[1..], shs[1..], rest);
      Regroup(a, EncodeFields(fs[1..]), rest);
      Cut(a, later);
      assert fs == [fs[0]] + fs[1..];
    }
  }

  lemma Cut(a: Buf, b: Buf)
    ensures (a + b)[..|a|] == a && (a + b)[|a|..] == b
  {
  }

  /** Seven bits a byte, least significant first; every byte but the last has its top bit set. */
  function Varint(n: nat): (b: Buf)
    ensures |b| >= 1
  {
    if n < 128 then [n] else [128 + n % 128] + Varint(n / 128)
  }

  function VarintSize(n: nat): nat
  {
    if n < 128 then 1 else 1 + VarintSize(n / 128)
  }

  function VarintDecode(b: Buf): Option<(nat, Buf)>
  {
    if b == [] then None
    else if b[0] < 128 then Some((b[0], b[1..]))
    else
      var more := VarintDecode(b[1..]);
      if more.None? then None else Some((b[0] - 128 + 128 * more.value.0, more.value.1))
  }

  lemma {:induction false} VarintRoundTrip(n: nat, rest: Buf)
    ensures |Varint(n)| == VarintSize(n) && VarintDecode(Varint(n) + rest) == Some((n, rest))
    decreases n
  {
    if n < 128 {
      assert (Varint(n) + rest)[1..] == rest;
    } else {
      VarintRoundTrip(n / 128, rest);
      assert (Varint(n) + rest)[1..] == Varint(n / 128) + rest;
    }
  }

  function LenStr(s: Buf): Buf
  {
    Varint(|s|) + s
  }

  function LenStrSize(s: Buf): nat
  {
    VarintSize(|s|) + |s|
  }

  function LenStrDecode(b: Buf): Option<(Buf, Buf)>
  {
    var n := VarintDecode(b);
    if n.None? || |n.value.1| < n.value.0 then None
    else Some((n.value.1[..n.value.0], n.value.1[n.value.0..]))
  }

  lemma LenStrRoundTrip(s: Buf, rest: Buf)
    ensures |LenStr(s)| == LenStrSize(s) && LenStrDecode(LenStr(s) + rest) == Some((s, rest))
  {
    VarintRoundTrip(|s|, s + rest);
    Regroup(Varint(|s|), s, rest);
    Cut(s, rest);
  }
}
