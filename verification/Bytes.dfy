/** Bytes, and numbers laid out in a fixed number of them. */
module Bytes {

  type Byte = x: int | 0 <= x < 256

  type Buf = seq<Byte>

  function Pow256(width: nat): (p: nat)
    ensures p > 0
  {
    if width == 0 then 1 else 256 * Pow256(width - 1)
  }

  /** Least significant byte first, as a copy of the number's memory. */
  function Le(n: nat, width: nat): (b: Buf)
    ensures |b| == width
    decreases width
  {
    if width == 0 then [] else [n % 256] + Le(n / 256, width - 1)
  }

  function FromLe(b: Buf): nat
  {
    if b == [] then 0 else b[0] + 256 * FromLe(b[1..])
  }

  lemma {:induction false} LeRoundTrip(n: nat, width: nat)
    requires n < Pow256(width)
    ensures FromLe(Le(n, width)) == n
    decreases width
  {
    if width > 0 {
      LeRoundTrip(n / 256, width - 1);
      assert Le(n, width)[1..] == Le(n / 256, width - 1);
    }
  }

  /** Most significant byte first. */
  function Be(n: nat, width: nat): (b: Buf)
    ensures |b| == width
    decreases width
  {
    if width == 0 then [] else Be(n / 256, width - 1) + [n % 256]
  }

  function FromBe(b: Buf): nat
  {
    if b == [] then 0 else 256 * FromBe(b[..|b| - 1]) + b[|b| - 1]
  }

  lemma {:induction false} BeRoundTrip(n: nat, width: nat)
    requires n < Pow256(width)
    ensures FromBe(Be(n, width)) == n
    decreases width
  {
    if width > 0 {
      BeRoundTrip(n / 256, width - 1);
      assert Be(n, width)[..width - 1] == Be(n / 256, width - 1);
    }
  }

  lemma Regroup(a: Buf, b: Buf, c: Buf)
    ensures (a + b) + c == a + (b + c)
  {
  }
}
